/**
 * The colour-string helpers shared by the toolbox's panels: clamping, two-digit hex
 * bytes, `#rgb`/`#rrggbb` parsing and formatting, `rgb(...)`/`hsl(...)` extraction
 * and hue arithmetic. All of them are pure.
 */
module Utils {
  import opened Js

  datatype Rgb = Rgb(r: int, g: int, b: int)
  datatype Hsl = Hsl(h: int, s: int, l: int)

  predicate ValidRgb(c: Rgb)
  {
    0 <= c.r < 256 && 0 <= c.g < 256 && 0 <= c.b < 256
  }

  /** `clamp(v, min, max)`: `Math.min(max, Math.max(min, v))`. */
  function Clamp(v: int, lo: int, hi: int): (r: int)
    ensures lo <= hi ==> lo <= r <= hi
    ensures lo <= v <= hi ==> r == v
    ensures lo <= hi && v < lo ==> r == lo
    ensures lo <= hi && v > hi ==> r == hi
  {
    Min(hi, Max(lo, v))
  }

  // ---------------------------------------------------------------------------
  // Hex bytes and #rrggbb
  // ---------------------------------------------------------------------------

  /** `n.toString(16)` for an integer. */
  function HexString(n: int): (s: string)
    ensures s != []
  {
    if n < 0 then "-" + NatToDigits(-n, 16) else NatToDigits(n, 16)
  }

  /** `s.padStart(2, '0')`. */
  function PadStart2(s: string): (r: string)
    ensures |s| >= 2 ==> r == s
    ensures |s| < 2 ==> |r| == 2 && r[2 - |s|..] == s && forall i :: 0 <= i < 2 - |s| ==> r[i] == '0'
  {
    if |s| >= 2 then s else if |s| == 1 then "0" + s else "00"
  }

  predicate IsLowerHex(c: char)
  {
    '0' <= c <= '9' || 'a' <= c <= 'f'
  }

  /** `toHex2(n)`: for a byte, exactly two lowercase hex digits whose value is n. */
  function ToHex2(n: int): (s: string)
    ensures 0 <= n < 256 ==> |s| == 2 && IsLowerHex(s[0]) && IsLowerHex(s[1])
    ensures 0 <= n < 256 ==> AllDigits(s, 16) && DigitsValue(s, 16) == n
  {
    var h := HexString(n);
    var s := PadStart2(h);
    if 0 <= n < 256 then
      HexDigitsLength(n);
      if n < 16 then
        DigitsValueAppend("0", h, 16);
        s
      else s
    else s
  }

  /** `rgbToHex({r,g,b})`. */
  function RgbToHex(c: Rgb): (s: string)
    ensures ValidRgb(c) ==> |s| == 7 && s[0] == '#' && forall i :: 1 <= i < 7 ==> IsLowerHex(s[i])
    ensures ValidRgb(c) ==> AllDigits(s[1..3], 16) && DigitsValue(s[1..3], 16) == c.r
    ensures ValidRgb(c) ==> AllDigits(s[3..5], 16) && DigitsValue(s[3..5], 16) == c.g
    ensures ValidRgb(c) ==> AllDigits(s[5..7], 16) && DigitsValue(s[5..7], 16) == c.b
  {
    var x, y, z := ToHex2(c.r), ToHex2(c.g), ToHex2(c.b);
    if ValidRgb(c) then
      HashPairs(x, y, z);
      "#" + x + y + z
    else "#" + x + y + z
  }

  lemma HashPairs(x: string, y: string, z: string)
    requires |x| == 2 && |y| == 2 && |z| == 2
    requires IsLowerHex(x[0]) && IsLowerHex(x[1]) && IsLowerHex(y[0]) && IsLowerHex(y[1])
    requires IsLowerHex(z[0]) && IsLowerHex(z[1])
    ensures var s := "#" + x + y + z;
      |s| == 7 && s[0] == '#' && s[1..3] == x && s[3..5] == y && s[5..7] == z &&
      forall i :: 1 <= i < 7 ==> IsLowerHex(s[i])
  {
    var s := "#" + x + y + z;
    assert s[1] == x[0] && s[2] == x[1] && s[3] == y[0] && s[4] == y[1] && s[5] == z[0] && s[6] == z[1];
  }

  /** The text after an optional leading '#'. */
  function StripHash(t: string): (u: string)
    ensures t != [] && t[0] == '#' ==> u == t[1..]
    ensures (t == [] || t[0] != '#') ==> u == t
  {
    if t != [] && t[0] == '#' then t[1..] else t
  }

  /** What `hexToRgb` accepts once trimmed: an optional '#' then 3 or 6 hex digits
      of either case. */
  predicate HexShape(t: string)
  {
    var u := StripHash(t);
    (|u| == 3 || |u| == 6) && AllDigits(u, 16)
  }

  /** `(x >> k) & 255` for a non-negative x below 2^31. */
  function ByteAt(x: nat, k: nat): (r: Byte)
  {
    (x / Pow(2, k)) % 256
  }

  /** `hexToRgb(hex)`: None for the empty string or a trimmed text that is not an
      optional '#' and 3 or 6 hex digits. */
  function HexToRgb(hex: string): (r: Option<Rgb>)
    ensures r.Some? <==> hex != [] && HexShape(Trim(hex))
    ensures r.Some? ==> ValidRgb(r.value)
  {
    if hex == [] then None else HexDigitsToRgb(StripHash(Trim(hex)))
  }

  /** The digits after the optional '#': three digits are doubled (`f80` is `ff8800`),
      six are read as one number whose bytes are red, green and blue. */
  function HexDigitsToRgb(u: string): (r: Option<Rgb>)
    ensures r.Some? <==> (|u| == 3 || |u| == 6) && AllDigits(u, 16)
    ensures r.Some? ==> ValidRgb(r.value)
    ensures r.Some? && |u| == 3 ==>
      r.value == Rgb(17 * DigitValue(u[0], 16), 17 * DigitValue(u[1], 16), 17 * DigitValue(u[2], 16))
  {
    if |u| == 3 && AllDigits(u, 16) then
      DoubledDigit(u[0]);
      DoubledDigit(u[1]);
      DoubledDigit(u[2]);
      Some(Rgb(DigitsValue([u[0], u[0]], 16), DigitsValue([u[1], u[1]], 16), DigitsValue([u[2], u[2]], 16)))
    else if |u| == 6 && AllDigits(u, 16) then
      var n := DigitsValue(u, 16);
      Some(Rgb(ByteAt(n, 16), ByteAt(n, 8), ByteAt(n, 0)))
    else None
  }

  /** A doubled hex digit d denotes 17 * d, a byte. */
  lemma DoubledDigit(c: char)
    requires IsDigit(c, 16)
    ensures AllDigits([c, c], 16) && DigitsValue([c, c], 16) == 17 * DigitValue(c, 16) < 256
  {
    var v := DigitValue(c, 16);
    assert [c, c][..1] == [c];
    assert [c][..0] == [];
    assert DigitsValue([c], 16) == v;
    assert DigitsValue([c, c], 16) == v * 16 + v;
  }

  lemma DivModUnique(x: int, d: int, q: int, r: int)
    requires d > 0 && 0 <= r < d && x == q * d + r
    ensures x / d == q && x % d == r
  {
    var q' := x / d;
    var r' := x % d;
    assert x == q' * d + r';
    if q' > q {
      assert q' * d >= (q + 1) * d by { MulMonotone(d, q + 1, q'); }
      assert false;
    } else if q' < q {
      assert q * d >= (q' + 1) * d by { MulMonotone(d, q' + 1, q); }
      assert false;
    }
  }

  /** Splitting a 24-bit value into its three bytes. */
  lemma ThreeBytes(a: nat, b: nat, c: nat)
    requires a < 256 && b < 256 && c < 256
    ensures var n := (a * 256 + b) * 256 + c; ByteAt(n, 16) == a && ByteAt(n, 8) == b && ByteAt(n, 0) == c
  {
    var n := (a * 256 + b) * 256 + c;
    assert Pow(2, 8) == 256;
    assert Pow(2, 16) == 65536 by {
      assert Pow(2, 16) == Pow(2, 8) * Pow(2, 8) by { PowAdd(2, 8, 8); }
    }
    DivModUnique(n, 65536, a, b * 256 + c);
    DivModUnique(n, 256, a * 256 + b, c);
    DivModUnique(a * 256 + b, 256, a, b);
    DivModUnique(a, 256, 0, a);
  }

  lemma {:induction false} PowAdd(b: nat, e1: nat, e2: nat)
    ensures Pow(b, e1 + e2) == Pow(b, e1) * Pow(b, e2)
  {
    if e2 > 0 {
      PowAdd(b, e1, e2 - 1);
    }
  }

  /** The long form reads the three two-digit pairs as bytes, red first. */
  lemma HexPairs(u: string)
    requires |u| == 6 && AllDigits(u, 16)
    ensures var n := DigitsValue(u, 16);
      ByteAt(n, 16) == DigitsValue(u[..2], 16) &&
      ByteAt(n, 8) == DigitsValue(u[2..4], 16) &&
      ByteAt(n, 0) == DigitsValue(u[4..], 16)
  {
    var a, b, c := u[..2], u[2..4], u[4..];
    assert u == (a + b) + c;
    assert Pow(16, 2) == 256;
    DigitsValueAppend(a, b, 16);
    DigitsValueAppend(a + b, c, 16);
    TwoDigitsBound(a);
    TwoDigitsBound(b);
    TwoDigitsBound(c);
    ThreeBytes(DigitsValue(a, 16), DigitsValue(b, 16), DigitsValue(c, 16));
  }

  lemma TwoDigitsBound(s: string)
    requires |s| == 2 && AllDigits(s, 16)
    ensures DigitsValue(s, 16) < 256
  {
    assert s[..1][..0] == [];
    assert DigitsValue(s[..1], 16) == DigitValue(s[0], 16);
    assert DigitsValue(s, 16) == DigitValue(s[0], 16) * 16 + DigitValue(s[1], 16);
  }

  /** The long form reads the three two-digit pairs, red first. */
  lemma HexDigitsLong(u: string)
    requires |u| == 6 && AllDigits(u, 16)
    ensures HexDigitsToRgb(u) == Some(Rgb(DigitsValue(u[..2], 16), DigitsValue(u[2..4], 16), DigitsValue(u[4..], 16)))
  {
    HexPairs(u);
  }

  /** Formatting a colour as hex and parsing it back gives the colour. */
  lemma HexRoundTrip(c: Rgb)
    requires ValidRgb(c)
    ensures HexToRgb(RgbToHex(c)) == Some(c)
  {
    HexTextToRgb(RgbToHex(c), c);
  }

  /** A `#` and three lowercase two-digit pairs parse to the colour of those pairs. */
  lemma HexTextToRgb(s: string, c: Rgb)
    requires |s| == 7 && s[0] == '#' && forall i :: 1 <= i < 7 ==> IsLowerHex(s[i])
    requires AllDigits(s[1..3], 16) && DigitsValue(s[1..3], 16) == c.r
    requires AllDigits(s[3..5], 16) && DigitsValue(s[3..5], 16) == c.g
    requires AllDigits(s[5..7], 16) && DigitsValue(s[5..7], 16) == c.b
    ensures HexToRgb(s) == Some(c)
  {
    HexTextTrimmed(s);
    PairsOfTail(s);
    HexDigitsPairs(s[1..], c);
  }

  lemma PairsOfTail(s: string)
    requires |s| == 7
    ensures s[1..][..2] == s[1..3] && s[1..][2..4] == s[3..5] && s[1..][4..] == s[5..7]
  {
  }

  lemma HexTextTrimmed(s: string)
    requires |s| == 7 && s[0] == '#' && forall i :: 1 <= i < 7 ==> IsLowerHex(s[i])
    ensures AllDigits(s[1..], 16) && HexToRgb(s) == HexDigitsToRgb(s[1..])
  {
    assert IsLowerHex(s[6]);
    TrimNoop(s);
    var u := s[1..];
    forall i | 0 <= i < 6 ensures IsDigit(u[i], 16) {
      assert IsLowerHex(s[i + 1]);
    }
  }

  lemma HexDigitsPairs(u: string, c: Rgb)
    requires |u| == 6 && AllDigits(u, 16)
    requires AllDigits(u[..2], 16) && DigitsValue(u[..2], 16) == c.r
    requires AllDigits(u[2..4], 16) && DigitsValue(u[2..4], 16) == c.g
    requires AllDigits(u[4..], 16) && DigitsValue(u[4..], 16) == c.b
    ensures HexDigitsToRgb(u) == Some(c)
  {
    HexDigitsLong(u);
  }

  // ---------------------------------------------------------------------------
  // rgb(...) and hsl(...) extraction
  // ---------------------------------------------------------------------------

  /** `(\d{1,3})` at the start of s, where what follows cannot be a digit: the number
      and the rest of the text. */
  function Number3(s: string): (r: Option<(nat, string)>)
    ensures r.Some? ==> r.value.0 < 1000 && |r.value.1| < |s|
  {
    var ds := DigitPrefix(s, 10);
    if 1 <= |ds| <= 3 then
      DigitsBound(ds);
      Some((DigitsValue(ds, 10), s[|ds|..]))
    else None
  }

  lemma DigitsBound(s: string)
    requires 1 <= |s| <= 3 && AllDigits(s, 10)
    ensures DigitsValue(s, 10) < 1000
  {
    var v0 := DigitValue(s[0], 10);
    assert s[..1][..0] == [];
    assert DigitsValue(s[..1], 10) == v0;
    if |s| >= 2 {
      var v1 := DigitsValue(s[..2], 10);
      assert s[..2][..1] == s[..1];
      assert v1 == v0 * 10 + DigitValue(s[1], 10);
      if |s| == 3 {
        assert s[..2] == s[..|s| - 1];
        assert DigitsValue(s, 10) == v1 * 10 + DigitValue(s[2], 10);
      }
    }
  }

  /** `\s*(\d{1,3})\s*` then the character t: the number and the text after t. */
  function Field(s: string, t: char): (r: Option<(nat, string)>)
    ensures r.Some? ==> r.value.0 < 1000 && |r.value.1| < |s|
  {
    var x := Number3(TrimStart(s));
    if x.None? then None
    else
      var rest := TrimStart(x.value.1);
      if rest != [] && rest[0] == t then Some((x.value.0, rest[1..])) else None
  }

  /** s starts with `literal`, letters compared case-insensitively (the `i` flag). */
  predicate LiteralPrefix(s: string, literal: string)
  {
    |literal| <= |s| && ToLower(s[..|literal|]) == literal
  }

  /** `/rgb\(\s*(\d{1,3})\s*,\s*(\d{1,3})\s*,\s*(\d{1,3})\s*\)/i` at the start of s. */
  function RgbFrom(s: string): (r: Option<Rgb>)
    ensures r.Some? ==> LiteralPrefix(s, "rgb(") && 0 <= r.value.r < 1000 && 0 <= r.value.g < 1000 && 0 <= r.value.b < 1000
  {
    if LiteralPrefix(s, "rgb(") then RgbFields(s[4..]) else None
  }

  /** The three fields after `rgb(`, up to the closing parenthesis. */
  function RgbFields(u: string): (r: Option<Rgb>)
    ensures r.Some? ==> 0 <= r.value.r < 1000 && 0 <= r.value.g < 1000 && 0 <= r.value.b < 1000
  {
    match Field(u, ',')
    case None => None
    case Some((x, rest)) => GreenBlue(x, rest)
  }

  /** The green and blue fields, once red is read. */
  function GreenBlue(x: nat, u: string): (r: Option<Rgb>)
    requires x < 1000
    ensures r.Some? ==> r.value.r == x && 0 <= r.value.g < 1000 && 0 <= r.value.b < 1000
  {
    match Field(u, ',')
    case None => None
    case Some((y, rest)) => Blue(x, y, rest)
  }

  /** The blue field and the closing parenthesis. */
  function Blue(x: nat, y: nat, u: string): (r: Option<Rgb>)
    requires x < 1000 && y < 1000
    ensures r.Some? ==> r.value.r == x && r.value.g == y && 0 <= r.value.b < 1000
  {
    match Field(u, ')')
    case None => None
    case Some((z, _)) => Some(Rgb(x, y, z))
  }

  /** The regex of `RgbFrom` tried at position k. */
  function RgbAt(s: string, k: nat): (r: Option<Rgb>)
    ensures r.Some? ==> k <= |s| && LiteralPrefix(s[k..], "rgb(")
  {
    if k <= |s| then RgbFrom(s[k..]) else None
  }

  /** The leftmost position at or after k where `at` matches, as `String.prototype.match`
      with a non-global regex finds it. */
  function FirstMatch<T>(s: string, k: nat, at: nat -> Option<T>): (r: Option<(nat, T)>)
    ensures r.Some? ==> k <= r.value.0 <= |s| && at(r.value.0) == Some(r.value.1)
    ensures r.Some? ==> forall p :: k <= p < r.value.0 ==> at(p).None?
    ensures r.None? ==> forall p :: k <= p <= |s| ==> at(p).None?
    decreases |s| + 1 - k
  {
    if k > |s| then None
    else if at(k).Some? then Some((k, at(k).value))
    else FirstMatch(s, k + 1, at)
  }

  /** `parseRGB(str)`: the leftmost `rgb(d,d,d)` match, None when there is none or
      when one of its parts exceeds 255. */
  function ParseRgb(str: string): (r: Option<Rgb>)
    ensures var m := FirstMatch(str, 0, p => RgbAt(str, p));
      (r.Some? <==> m.Some? && ValidRgb(m.value.1)) && (r.Some? ==> r == Some(m.value.1))
    ensures r.Some? ==> ValidRgb(r.value)
    ensures r.Some? ==> exists p :: RgbAt(str, p) == r
  {
    var m := FirstMatch(str, 0, p => RgbAt(str, p));
    if m.None? then None
    else
      var c := m.value.1;
      if c.r > 255 || c.g > 255 || c.b > 255 then None else Some(c)
  }

  /** `\s*(?:,|\s)\s*` at the start of s: a comma between optional spaces, or at least
      one space; the text after it. */
  function Separator(s: string): (r: Option<string>)
    ensures r.Some? ==> |r.value| < |s|
  {
    var t := TrimStart(s);
    if t != [] && t[0] == ',' then Some(TrimStart(t[1..]))
    else if |t| < |s| then Some(t)
    else None
  }

  /** `(\d{1,3})%` at the start of s. */
  function Percent(s: string): (r: Option<(nat, string)>)
    ensures r.Some? ==> r.value.0 < 1000 && |r.value.1| < |s|
  {
    var x := Number3(s);
    if x.Some? && x.value.1 != [] && x.value.1[0] == '%' then Some((x.value.0, x.value.1[1..])) else None
  }

  /** `/hsl\(\s*(\-?\d{1,3})\s*(?:,|\s)\s*(\d{1,3})%\s*(?:,|\s)\s*(\d{1,3})%\s*\)/i`
      at the start of s. */
  function HslFrom(s: string): (r: Option<Hsl>)
    ensures r.Some? ==> LiteralPrefix(s, "hsl(") && -1000 < r.value.h < 1000 && 0 <= r.value.s < 1000 && 0 <= r.value.l < 1000
  {
    if !LiteralPrefix(s, "hsl(") then None
    else
      var u := TrimStart(s[4..]);
      var neg := u != [] && u[0] == '-';
      var x := Number3(if neg then u[1..] else u);
      if x.None? then None
      else
        var sep1 := Separator(x.value.1);
        if sep1.None? then None
        else
          var y := Percent(sep1.value);
          if y.None? then None
          else
            var sep2 := Separator(y.value.1);
            if sep2.None? then None
            else
              var z := Percent(sep2.value);
              if z.None? then None
              else
                var e := TrimStart(z.value.1);
                if e != [] && e[0] == ')' then
                  Some(Hsl(if neg then -(x.value.0 as int) else x.value.0, y.value.0, z.value.0))
                else None
  }

  /** The regex of `HslFrom` tried at position k. */
  function HslAt(s: string, k: nat): (r: Option<Hsl>)
    ensures r.Some? ==> k <= |s| && LiteralPrefix(s[k..], "hsl(")
  {
    if k <= |s| then HslFrom(s[k..]) else None
  }

  /** `parseHSL(str)`: the leftmost `hsl(...)` match; None when there is none or its
      saturation or lightness lies outside [0, 100]. The hue is not range-checked. */
  function ParseHsl(str: string): (r: Option<Hsl>)
    ensures var m := FirstMatch(str, 0, p => HslAt(str, p));
      (r.Some? <==> m.Some? && m.value.1.s <= 100 && m.value.1.l <= 100) && (r.Some? ==> r == Some(m.value.1))
    ensures r.Some? ==> 0 <= r.value.s <= 100 && 0 <= r.value.l <= 100 && -1000 < r.value.h < 1000
    ensures r.Some? ==> exists p :: HslAt(str, p) == r
  {
    var m := FirstMatch(str, 0, p => HslAt(str, p));
    if m.None? then None
    else
      var c := m.value.1;
      if c.s < 0 || c.s > 100 || c.l < 0 || c.l > 100 then None else Some(c)
  }

  /** The digit run of `ds + rest`, when rest does not start with a digit, is ds. */
  lemma {:induction false} DigitPrefixOf(ds: string, rest: string)
    requires AllDigits(ds, 10)
    requires rest != [] ==> !IsDigit(rest[0], 10)
    ensures DigitPrefix(ds + rest, 10) == ds
  {
    if ds != [] {
      assert (ds + rest)[1..] == ds[1..] + rest;
      DigitPrefixOf(ds[1..], rest);
    } else {
      assert ds + rest == rest;
    }
  }

  /** One to three digits then the character t (neither digit nor space) form a field. */
  lemma FieldOf(ds: string, t: char, rest: string)
    requires 1 <= |ds| <= 3 && AllDigits(ds, 10)
    requires !IsDigit(t, 10) && !IsSpace(t)
    ensures Field(ds + [t] + rest, t) == Some((DigitsValue(ds, 10), rest))
  {
    var s := ds + [t] + rest;
    assert s == ds + ([t] + rest);
    StartsWithDigit(ds, [t] + rest);
    Number3Of(ds, [t] + rest);
    assert TrimStart([t] + rest) == [t] + rest;
  }

  lemma StartsWithDigit(ds: string, rest: string)
    requires ds != [] && AllDigits(ds, 10)
    ensures TrimStart(ds + rest) == ds + rest
  {
    assert (ds + rest)[0] == ds[0];
    assert IsDigit(ds[0], 10);
  }

  lemma Number3Of(ds: string, rest: string)
    requires 1 <= |ds| <= 3 && AllDigits(ds, 10)
    requires rest != [] ==> !IsDigit(rest[0], 10)
    ensures Number3(ds + rest) == Some((DigitsValue(ds, 10), rest))
  {
    DigitPrefixOf(ds, rest);
    assert (ds + rest)[|ds|..] == rest;
  }

  /** The decimal text of a byte: one to three digits. */
  lemma ByteDigits(n: nat)
    requires n < 256
    ensures var ds := IntToString(n);
      1 <= |ds| <= 3 && AllDigits(ds, 10) && DigitsValue(ds, 10) == n
  {
    DecimalDigitsLength(n);
  }

  /** The `rgb(r,g,b)` label a swatch shows parses back to its colour. */
  lemma RgbLabelRoundTrip(c: Rgb)
    requires ValidRgb(c)
    ensures ParseRgb("rgb(" + IntToString(c.r) + "," + IntToString(c.g) + "," + IntToString(c.b) + ")") == Some(c)
  {
    ByteDigits(c.r);
    ByteDigits(c.g);
    ByteDigits(c.b);
    RgbTextParses(IntToString(c.r), IntToString(c.g), IntToString(c.b), c);
  }

  /** `rgb(` three comma-separated digit runs `)` is found at the start and read. */
  lemma RgbTextParses(a: string, b: string, d: string, c: Rgb)
    requires 1 <= |a| <= 3 && 1 <= |b| <= 3 && 1 <= |d| <= 3
    requires AllDigits(a, 10) && AllDigits(b, 10) && AllDigits(d, 10)
    requires ValidRgb(c) && DigitsValue(a, 10) == c.r && DigitsValue(b, 10) == c.g && DigitsValue(d, 10) == c.b
    ensures ParseRgb("rgb(" + a + "," + b + "," + d + ")") == Some(c)
  {
    var s := "rgb(" + a + "," + b + "," + d + ")";
    LabelSplit(s, a, b, d);
    RgbTextFrom(s, a, b, d);
    assert s[0..] == s;
    assert RgbAt(s, 0) == Some(c);
    assert FirstMatch(s, 0, p => RgbAt(s, p)) == Some((0, c));
  }

  lemma RgbTextFrom(s: string, a: string, b: string, d: string)
    requires 1 <= |a| <= 3 && 1 <= |b| <= 3 && 1 <= |d| <= 3
    requires AllDigits(a, 10) && AllDigits(b, 10) && AllDigits(d, 10)
    requires LiteralPrefix(s, "rgb(") && s[4..] == a + [','] + (b + [','] + (d + [')'] + []))
    ensures RgbFrom(s) == Some(Rgb(DigitsValue(a, 10), DigitsValue(b, 10), DigitsValue(d, 10)))
  {
    RgbFieldsOf(a, b, d);
  }

  /** Three digit runs separated by commas and closed by `)` are the three fields. */
  lemma RgbFieldsOf(a: string, b: string, d: string)
    requires 1 <= |a| <= 3 && 1 <= |b| <= 3 && 1 <= |d| <= 3
    requires AllDigits(a, 10) && AllDigits(b, 10) && AllDigits(d, 10)
    ensures RgbFields(a + [','] + (b + [','] + (d + [')'] + []))) == Some(Rgb(DigitsValue(a, 10), DigitsValue(b, 10), DigitsValue(d, 10)))
  {
    var r3 := d + [')'] + [];
    var r2 := b + [','] + r3;
    FieldOf(a, ',', r2);
    DigitsBound(a);
    GreenBlueOf(DigitsValue(a, 10), b, d);
  }

  lemma GreenBlueOf(x: nat, b: string, d: string)
    requires x < 1000 && 1 <= |b| <= 3 && 1 <= |d| <= 3
    requires AllDigits(b, 10) && AllDigits(d, 10)
    ensures GreenBlue(x, b + [','] + (d + [')'] + [])) == Some(Rgb(x, DigitsValue(b, 10), DigitsValue(d, 10)))
  {
    FieldOf(b, ',', d + [')'] + []);
    DigitsBound(b);
    BlueOf(x, DigitsValue(b, 10), d);
  }

  lemma BlueOf(x: nat, y: nat, d: string)
    requires x < 1000 && y < 1000 && 1 <= |d| <= 3 && AllDigits(d, 10)
    ensures Blue(x, y, d + [')'] + []) == Some(Rgb(x, y, DigitsValue(d, 10)))
  {
    FieldOf(d, ')', []);
  }

  lemma LabelSplit(s: string, a: string, b: string, d: string)
    requires s == "rgb(" + a + "," + b + "," + d + ")"
    ensures LiteralPrefix(s, "rgb(") && s[4..] == a + [','] + (b + [','] + (d + [')'] + []))
  {
    assert s[..4] == "rgb(";
    assert ToLower("rgb(") == "rgb(";
  }

  // ---------------------------------------------------------------------------
  // Hue arithmetic
  // ---------------------------------------------------------------------------

  /** `rotateHue(h, deg)`: `(h + deg + 360) % 360` with JavaScript's `%`. */
  function RotateHue(h: int, deg: int): (r: int)
    ensures h + deg >= -360 ==> 0 <= r < 360
    ensures h + deg < -360 && (h + deg) % 360 != 0 ==> r < 0
    ensures r % 360 == (h + deg) % 360
  {
    var x := h + deg + 360;
    var r := Rem(x, 360);
    RemCongruent(x, 360);
    r
  }

  /** JavaScript's `a % m` is congruent to a modulo m. */
  lemma RemCongruent(a: int, m: int)
    requires m > 0
    ensures Rem(a, m) % m == a % m
  {
    if a < 0 {
      assert Rem(a, m) == -((-a) % m);
      NegatedRemainder(-a, m);
    }
  }

  /** Negating the remainder of x keeps it congruent to -x. */
  lemma NegatedRemainder(x: int, m: int)
    requires x >= 0 && m > 0
    ensures (-(x % m)) % m == (-x) % m
  {
    var r := x % m;
    ModNegate(x, m);
    DivModUnique(r, m, 0, r);
    ModNegate(r, m);
  }

  /** The Euclidean remainder of -x, from that of x. */
  lemma ModNegate(x: int, m: int)
    requires x >= 0 && m > 0
    ensures (-x) % m == if x % m == 0 then 0 else m - x % m
  {
    var q, r := x / m, x % m;
    var qm := q * m;
    assert x == qm + r;
    if r == 0 {
      assert -x == (-q) * m + 0;
      DivModUnique(-x, m, -q, 0);
    } else {
      assert (-q - 1) * m == -qm - m;
      DivModUnique(-x, m, -q - 1, m - r);
    }
  }

  /** `clampHSL({h,s,l})`: the hue reduced into [0, 360) (congruent to h), saturation
      and lightness clamped into [0, 100]. */
  function ClampHsl(c: Hsl): (r: Hsl)
    ensures 0 <= r.h < 360 && r.h == c.h % 360
    ensures r.s == Clamp(c.s, 0, 100) && r.l == Clamp(c.l, 0, 100)
  {
    var h := Rem(Rem(c.h, 360) + 360, 360);
    RemCongruent(c.h, 360);
    RemCongruent(Rem(c.h, 360) + 360, 360);
    Hsl(h, Max(0, Min(100, c.s)), Max(0, Min(100, c.l)))
  }
}
