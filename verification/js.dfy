/**
 * The JavaScript built-ins that the toolbox's files lean on, stated over Dafny's
 * unbounded integers and Unicode strings: whitespace and `trim`, `parseInt`, the
 * `x || d` default for parsed numbers, `Math.round` of a quotient, the `%` operator,
 * `Number.prototype.toString(radix)`, `Array.prototype.join`,
 * `String.prototype.includes`, ASCII case mapping and `JSON.stringify` of a string.
 */
module Js {

  datatype Option<T> = None | Some(value: T)

  /** One element of a `Uint8Array` / `Uint8ClampedArray`. */
  type Byte = x: int | 0 <= x < 256

  // ---------------------------------------------------------------------------
  // Whitespace and trim
  // ---------------------------------------------------------------------------

  /** ECMAScript WhiteSpace and LineTerminator code points (what `trim`, `\s` and
      `parseInt` skip). */
  predicate IsSpace(c: char)
  {
    c == '\t' || c == '\n' || c == '\U{000B}' || c == '\U{000C}' || c == '\r' ||
    c == ' ' || c == '\U{00A0}' || c == '\U{1680}' ||
    ('\U{2000}' <= c <= '\U{200A}') ||
    c == '\U{2028}' || c == '\U{2029}' || c == '\U{202F}' || c == '\U{205F}' ||
    c == '\U{3000}' || c == '\U{FEFF}'
  }

  /** `s` with its leading whitespace removed. */
  function TrimStart(s: string): (r: string)
    ensures |r| <= |s| && r == s[|s| - |r|..]
    ensures forall i :: 0 <= i < |s| - |r| ==> IsSpace(s[i])
    ensures r != [] ==> !IsSpace(r[0])
  {
    if s != [] && IsSpace(s[0]) then TrimStart(s[1..]) else s
  }

  /** `s` with its trailing whitespace removed. */
  function TrimEnd(s: string): (r: string)
    ensures |r| <= |s| && r == s[..|r|]
    ensures forall i :: |r| <= i < |s| ==> IsSpace(s[i])
    ensures r != [] ==> !IsSpace(r[|r| - 1])
  {
    if s != [] && IsSpace(s[|s| - 1]) then TrimEnd(s[..|s| - 1]) else s
  }

  /** `String.prototype.trim`. */
  function Trim(s: string): (r: string)
    ensures r != [] ==> !IsSpace(r[0]) && !IsSpace(r[|r| - 1])
  {
    var t := TrimStart(s);
    var r := TrimEnd(t);
    assert r != [] ==> r[0] == t[0];
    r
  }

  /** Trimming a string without surrounding whitespace leaves it as it is. */
  lemma {:induction false} TrimNoop(s: string)
    requires s != [] ==> !IsSpace(s[0]) && !IsSpace(s[|s| - 1])
    ensures Trim(s) == s
  {
    assert TrimStart(s) == s;
    assert TrimEnd(s) == s;
  }

  /** `trim` is idempotent. */
  lemma TrimIdempotent(s: string)
    ensures Trim(Trim(s)) == Trim(s)
  {
    TrimNoop(Trim(s));
  }

  // ---------------------------------------------------------------------------
  // ASCII case mapping (the strings these files case-map are ASCII)
  // ---------------------------------------------------------------------------

  function LowerChar(c: char): (d: char)
    ensures 'A' <= c <= 'Z' ==> d as int == c as int + 32
    ensures !('A' <= c <= 'Z') ==> d == c
  {
    if 'A' <= c <= 'Z' then (c as int + 32) as char else c
  }

  function UpperChar(c: char): (d: char)
    ensures 'a' <= c <= 'z' ==> d as int == c as int - 32
    ensures !('a' <= c <= 'z') ==> d == c
  {
    if 'a' <= c <= 'z' then (c as int - 32) as char else c
  }

  /** `String.prototype.toLowerCase` on the ASCII range. */
  function ToLower(s: string): (r: string)
    ensures |r| == |s| && forall i :: 0 <= i < |s| ==> r[i] == LowerChar(s[i])
  {
    seq(|s|, i requires 0 <= i < |s| => LowerChar(s[i]))
  }

  /** `String.prototype.toUpperCase` on the ASCII range. */
  function ToUpper(s: string): (r: string)
    ensures |r| == |s| && forall i :: 0 <= i < |s| ==> r[i] == UpperChar(s[i])
  {
    seq(|s|, i requires 0 <= i < |s| => UpperChar(s[i]))
  }

  lemma ToLowerIdempotent(s: string)
    ensures ToLower(ToLower(s)) == ToLower(s)
  {
  }

  lemma ToLowerConcat(a: string, b: string)
    ensures ToLower(a + b) == ToLower(a) + ToLower(b)
  {
  }

  // ---------------------------------------------------------------------------
  // Numbers
  // ---------------------------------------------------------------------------

  /** `Math.round(n / d)` for a positive divisor: the integer nearest to n/d, halves
      rounded up (towards +infinity), as JavaScript does. */
  function RoundDiv(n: int, d: int): (r: int)
    requires d > 0
    ensures 2 * d * r <= 2 * n + d < 2 * d * r + 2 * d
  {
    (2 * n + d) / (2 * d)
  }

  /** A rounded mean of values in [lo, hi] stays in [lo, hi]. */
  lemma RoundDivBounds(n: int, d: int, lo: int, hi: int)
    requires d > 0 && lo * d <= n <= hi * d
    ensures lo <= RoundDiv(n, d) <= hi
  {
    var r := RoundDiv(n, d);
    if r > hi {
      assert 2 * d * r >= 2 * d * (hi + 1) by {
        assert r >= hi + 1;
        MulMonotone(2 * d, hi + 1, r);
      }
      assert false;
    }
    if r < lo {
      assert 2 * d * r + 2 * d <= 2 * d * lo by {
        assert r + 1 <= lo;
        MulMonotone(2 * d, r + 1, lo);
      }
      assert false;
    }
  }

  lemma MulMonotone(k: int, a: int, b: int)
    requires k >= 0 && a <= b
    ensures k * a <= k * b
  {
  }

  /** Comparing a square root with a bound: for the non-negative root d of s,
      `d <= t` exactly when t is non-negative and `s <= t * t`. */
  lemma RootCompare(s: real, d: real, t: real)
    requires d >= 0.0 && d * d == s
    ensures (0.0 <= t && s <= t * t) <==> d <= t
  {
    if 0.0 <= t {
      if d <= t {
        SquareMonotone(d, t);
      } else {
        StrictSquare(t, d);
      }
    }
  }

  lemma SquareMonotone(x: real, y: real)
    requires 0.0 <= x <= y
    ensures x * x <= y * y
  {
    if x < y {
      StrictSquare(x, y);
    }
  }

  lemma StrictSquare(x: real, y: real)
    requires 0.0 <= x < y
    ensures x * x < y * y
  {
    PositiveRealProduct(y - x, y + x);
  }

  lemma PositiveRealProduct(x: real, y: real)
    requires x > 0.0 && y > 0.0
    ensures x * y > 0.0
  {
  }

  /** JavaScript's `a % b` on integers: the remainder keeps the sign of the dividend
      (Dafny's `%` is Euclidean). */
  function Rem(a: int, b: int): (r: int)
    requires b != 0
    ensures a >= 0 ==> 0 <= r < Abs(b)
    ensures a < 0 ==> 0 <= -r < Abs(b)
  {
    if a >= 0 then a % Abs(b) else -((-a) % Abs(b))
  }

  function Abs(x: int): (r: nat)
    ensures r == x || r == -x
  {
    if x < 0 then -x else x
  }

  function Min(a: int, b: int): (r: int)
    ensures r <= a && r <= b && (r == a || r == b)
  {
    if a <= b then a else b
  }

  function Max(a: int, b: int): (r: int)
    ensures r >= a && r >= b && (r == a || r == b)
  {
    if a >= b then a else b
  }

  /** The value a `Uint8ClampedArray` stores when an integer is written to it. */
  function ClampByte(v: int): (r: Byte)
    ensures 0 <= v < 256 ==> r == v
    ensures v < 0 ==> r == 0
    ensures v > 255 ==> r == 255
  {
    if v < 0 then 0 else if v > 255 then 255 else v
  }

  // ---------------------------------------------------------------------------
  // Digits, Number.prototype.toString(radix) and parseInt
  // ---------------------------------------------------------------------------

  type Radix = r: int | r == 10 || r == 16 witness 10

  /** The lowercase digit character for d, as `toString(16)` writes it. */
  function DigitChar(d: nat): (c: char)
    requires d < 16
  {
    if d < 10 then ('0' as int + d) as char else ('a' as int + d - 10) as char
  }

  /** The value of c as a digit of the radix (either case for hex), or -1. */
  function DigitValue(c: char, radix: Radix): (v: int)
    ensures -1 <= v < radix
  {
    if '0' <= c <= '9' then c as int - '0' as int
    else if radix == 16 && 'a' <= c <= 'f' then c as int - 'a' as int + 10
    else if radix == 16 && 'A' <= c <= 'F' then c as int - 'A' as int + 10
    else -1
  }

  predicate IsDigit(c: char, radix: Radix)
  {
    DigitValue(c, radix) >= 0
  }

  predicate AllDigits(s: string, radix: Radix)
  {
    forall i :: 0 <= i < |s| ==> IsDigit(s[i], radix)
  }

  lemma DigitCharValue(d: nat, radix: Radix)
    requires d < radix
    ensures DigitValue(DigitChar(d), radix) == d
  {
  }

  /** The number a string of digits denotes, most significant digit first. */
  function DigitsValue(s: string, radix: Radix): (v: nat)
    requires AllDigits(s, radix)
  {
    if s == [] then 0
    else DigitsValue(s[..|s| - 1], radix) * radix + DigitValue(s[|s| - 1], radix)
  }

  /** Appending a digit block: the value of a + b is value(a) * radix^|b| + value(b). */
  lemma {:induction false} DigitsValueAppend(a: string, b: string, radix: Radix)
    requires AllDigits(a, radix) && AllDigits(b, radix)
    ensures AllDigits(a + b, radix)
    ensures DigitsValue(a + b, radix) == DigitsValue(a, radix) * Pow(radix, |b|) + DigitsValue(b, radix)
  {
    if b == [] {
      assert a + b == a;
    } else {
      var b' := b[..|b| - 1];
      assert (a + b)[..|a + b| - 1] == a + b';
      assert (a + b)[|a + b| - 1] == b[|b| - 1];
      DigitsValueAppend(a, b', radix);
      var A, P, B', d := DigitsValue(a, radix), Pow(radix, |b'|), DigitsValue(b', radix), DigitValue(b[|b| - 1], radix);
      assert DigitsValue(a + b, radix) == (A * P + B') * radix + d;
      assert DigitsValue(b, radix) == B' * radix + d;
      assert Pow(radix, |b|) == P * radix;
      Distribute(A, P, B', radix, d);
    }
  }

  lemma Distribute(a: int, p: int, b: int, r: int, d: int)
    ensures (a * p + b) * r + d == a * (p * r) + (b * r + d)
  {
  }

  function Pow(b: nat, e: nat): (r: nat)
    ensures b > 0 ==> r > 0
  {
    if e == 0 then 1 else Pow(b, e - 1) * b
  }

  /** `n.toString(radix)` for a non-negative integer. */
  function NatToDigits(n: nat, radix: Radix): (s: string)
    ensures s != [] && AllDigits(s, radix)
    ensures DigitsValue(s, radix) == n
    ensures forall i :: 0 <= i < |s| ==> '0' <= s[i] <= '9' || (radix == 16 && 'a' <= s[i] <= 'f')
  {
    DigitCharValue(n % radix, radix);
    if n < radix then [DigitChar(n)]
    else
      var p := NatToDigits(n / radix, radix);
      DigitAppended(p, n % radix, radix);
      p + [DigitChar(n % radix)]
  }

  /** Writing digit d after the digits p multiplies their value by the radix and
      adds d. */
  lemma DigitAppended(p: string, d: nat, radix: Radix)
    requires d < radix && AllDigits(p, radix)
    requires forall i :: 0 <= i < |p| ==> '0' <= p[i] <= '9' || (radix == 16 && 'a' <= p[i] <= 'f')
    ensures var s := p + [DigitChar(d)];
      AllDigits(s, radix) && DigitsValue(s, radix) == DigitsValue(p, radix) * radix + d &&
      forall i :: 0 <= i < |s| ==> '0' <= s[i] <= '9' || (radix == 16 && 'a' <= s[i] <= 'f')
  {
    var s := p + [DigitChar(d)];
    DigitCharValue(d, radix);
    assert s[..|s| - 1] == p;
  }

  /** Two digits are produced exactly for the values 16..255 in radix 16. */
  lemma HexDigitsLength(n: nat)
    ensures n < 16 ==> |NatToDigits(n, 16)| == 1
    ensures 16 <= n < 256 ==> |NatToDigits(n, 16)| == 2
  {
  }

  /** Numbers below 1000 take at most three decimal digits. */
  lemma DecimalDigitsLength(n: nat)
    ensures n < 10 ==> |NatToDigits(n, 10)| == 1
    ensures n < 1000 ==> |NatToDigits(n, 10)| <= 3
  {
    if 10 <= n < 1000 {
      assert n / 10 < 100;
      assert NatToDigits(n, 10) == NatToDigits(n / 10, 10) + [DigitChar(n % 10)];
      if n / 10 >= 10 {
        assert (n / 10) / 10 < 10;
        assert NatToDigits(n / 10, 10) == NatToDigits((n / 10) / 10, 10) + [DigitChar((n / 10) % 10)];
      }
    }
  }

  /** `String(i)` / template-literal formatting of an integer. */
  function IntToString(i: int): (s: string)
    ensures s != [] && (i < 0 <==> s[0] == '-')
  {
    if i < 0 then "-" + NatToDigits(-i, 10) else NatToDigits(i, 10)
  }

  /** The longest prefix of s made of digits of the radix. */
  function DigitPrefix(s: string, radix: Radix): (p: string)
    ensures |p| <= |s| && p == s[..|p|] && AllDigits(p, radix)
    ensures |p| < |s| ==> !IsDigit(s[|p|], radix)
  {
    if s != [] && IsDigit(s[0], radix) then [s[0]] + DigitPrefix(s[1..], radix) else []
  }

  lemma {:induction false} DigitPrefixAll(s: string, radix: Radix)
    requires AllDigits(s, radix)
    ensures DigitPrefix(s, radix) == s
  {
    if s != [] {
      DigitPrefixAll(s[1..], radix);
    }
  }

  /** `parseInt(s, radix)` with radix 10 or 16, or `parseInt(s)` (radix 0): leading
      whitespace skipped, one optional sign, then the magnitude; NaN is None. */
  function ParseInt(s: string, radix: int): (r: Option<int>)
    requires radix == 0 || radix == 10 || radix == 16
  {
    var t := TrimStart(s);
    if t != [] && t[0] == '-' then
      match ParseMagnitude(t[1..], radix)
      case None => None
      case Some(m) => Some(-(m as int))
    else if t != [] && t[0] == '+' then ParseMagnitude(t[1..], radix)
    else ParseMagnitude(t, radix)
  }

  /** The unsigned part of `parseInt`: a `0x`/`0X` prefix switches to hex when the
      radix is 0 or 16, then the longest run of digits is read; None when that run is
      empty. */
  function ParseMagnitude(u: string, radix: int): (r: Option<nat>)
    requires radix == 0 || radix == 10 || radix == 16
  {
    var hex := radix != 10 && |u| >= 2 && u[0] == '0' && (u[1] == 'x' || u[1] == 'X');
    var R: Radix := if hex || radix == 16 then 16 else 10;
    var ds := DigitPrefix(if hex then u[2..] else u, R);
    if ds == [] then None else Some(DigitsValue(ds, R))
  }

  /** A run of decimal digits is read whole. */
  lemma DecimalMagnitude(ds: string, radix: int)
    requires radix == 0 || radix == 10
    requires ds != [] && forall i :: 0 <= i < |ds| ==> '0' <= ds[i] <= '9'
    ensures AllDigits(ds, 10) && ParseMagnitude(ds, radix) == Some(DigitsValue(ds, 10))
  {
    assert AllDigits(ds, 10) by {
      forall i | 0 <= i < |ds| ensures IsDigit(ds[i], 10) { }
    }
    assert !(|ds| >= 2 && ds[0] == '0' && (ds[1] == 'x' || ds[1] == 'X'));
    DigitPrefixAll(ds, 10);
  }

  /** `x || d` where x is a parsed number: NaN and 0 (also -0) give d. */
  function OrElse(x: Option<int>, d: int): (r: int)
    ensures x.Some? && x.value != 0 ==> r == x.value
    ensures x.None? || x.value == 0 ==> r == d
  {
    if x.Some? && x.value != 0 then x.value else d
  }

  /** Formatting then parsing an integer gives it back. */
  lemma IntToStringRoundTrip(i: int, radix: int)
    requires radix == 0 || radix == 10
    ensures ParseInt(IntToString(i), radix) == Some(i)
  {
    var ds := NatToDigits(Abs(i), 10);
    DecimalMagnitude(ds, radix);
    if i < 0 {
      SignedText(ds, radix, DigitsValue(ds, 10));
    } else {
      UnsignedText(ds, radix, DigitsValue(ds, 10));
    }
  }

  lemma UnsignedText(ds: string, radix: int, v: nat)
    requires radix == 0 || radix == 10
    requires ds != [] && '0' <= ds[0] <= '9' && ParseMagnitude(ds, radix) == Some(v)
    ensures ParseInt(ds, radix) == Some(v as int)
  {
    assert !IsSpace(ds[0]);
    assert TrimStart(ds) == ds;
  }

  lemma SignedText(ds: string, radix: int, v: nat)
    requires radix == 0 || radix == 10
    requires ds != [] && ParseMagnitude(ds, radix) == Some(v)
    ensures ParseInt("-" + ds, radix) == Some(-(v as int))
  {
    var s := "-" + ds;
    assert !IsSpace(s[0]);
    assert TrimStart(s) == s;
    assert s[1..] == ds;
  }

  // ---------------------------------------------------------------------------
  // Strings and arrays
  // ---------------------------------------------------------------------------

  /** `Array.prototype.join`. */
  function Join(xs: seq<string>, sep: string): (r: string)
    ensures xs == [] ==> r == []
    ensures |xs| == 1 ==> r == xs[0]
  {
    if xs == [] then [] else if |xs| == 1 then xs[0] else xs[0] + sep + Join(xs[1..], sep)
  }

  /** Splitting on a single character (`String.prototype.split(c)`). */
  function Split(s: string, c: char): (parts: seq<string>)
    ensures |parts| >= 1
  {
    if s == [] then [[]]
    else if s[0] == c then [[]] + Split(s[1..], c)
    else
      var rest := Split(s[1..], c);
      [[s[0]] + rest[0]] + rest[1..]
  }

  /** When no element contains the separator character, splitting the joined string
      recovers the elements. */
  lemma {:induction false} SplitJoin(xs: seq<string>, c: char)
    requires xs != []
    requires forall i, j :: 0 <= i < |xs| && 0 <= j < |xs[i]| ==> xs[i][j] != c
    ensures Split(Join(xs, [c]), c) == xs
  {
    if |xs| == 1 {
      SplitPlain(xs[0], c);
    } else {
      var rest := Join(xs[1..], [c]);
      assert Join(xs, [c]) == xs[0] + [c] + rest;
      assert forall j :: 0 <= j < |xs[0]| ==> xs[0][j] != c;
      SplitJoin(xs[1..], c);
      SplitPrefix(xs[0], rest, c);
    }
  }

  lemma {:induction false} SplitPlain(s: string, c: char)
    requires forall j :: 0 <= j < |s| ==> s[j] != c
    ensures Split(s, c) == [s]
  {
    if s != [] {
      SplitPlain(s[1..], c);
      assert [s[0]] + s[1..] == s;
    }
  }

  lemma {:induction false} SplitPrefix(a: string, rest: string, c: char)
    requires forall j :: 0 <= j < |a| ==> a[j] != c
    ensures Split(a + [c] + rest, c) == [a] + Split(rest, c)
  {
    if a == [] {
      assert a + [c] + rest == [c] + rest;
      assert ([c] + rest)[1..] == rest;
    } else {
      assert (a + [c] + rest)[1..] == a[1..] + [c] + rest;
      SplitPrefix(a[1..], rest, c);
      assert [a[0]] + a[1..] == a;
    }
  }

  /** `s.startsWith(q)`. */
  predicate StartsWith(s: string, q: string)
  {
    |q| <= |s| && s[..|q|] == q
  }

  /** `s.includes(q)`. */
  predicate Includes(s: string, q: string)
    decreases |s|
  {
    StartsWith(s, q) || (s != [] && Includes(s[1..], q))
  }

  /** `includes` finds q exactly when q occurs at some offset of s. */
  lemma {:induction false} IncludesAt(s: string, q: string, k: nat)
    requires k + |q| <= |s| && s[k..k + |q|] == q
    ensures Includes(s, q)
  {
    if k > 0 {
      assert s[1..][k - 1..k - 1 + |q|] == q;
      IncludesAt(s[1..], q, k - 1);
    }
  }

  lemma IncludesEmpty(s: string)
    ensures Includes(s, [])
  {
    IncludesAt(s, [], 0);
  }

  /** `s.replace('#', '')`: removes the first '#' only. */
  function RemoveFirst(s: string, c: char): (r: string)
    ensures (forall i :: 0 <= i < |s| ==> s[i] != c) ==> r == s
    ensures s != [] && s[0] == c ==> r == s[1..]
  {
    if s == [] then []
    else if s[0] == c then s[1..]
    else [s[0]] + RemoveFirst(s[1..], c)
  }

  // ---------------------------------------------------------------------------
  // JSON.stringify of strings and string arrays
  // ---------------------------------------------------------------------------

  /** The escape JSON.stringify writes for one character. */
  function JsonChar(c: char): (r: string)
    ensures !(c == '"' || c == '\\' || c < ' ') ==> r == [c]
  {
    if c == '"' then "\\\""
    else if c == '\\' then "\\\\"
    else if c == '\U{0008}' then "\\b"
    else if c == '\U{000C}' then "\\f"
    else if c == '\n' then "\\n"
    else if c == '\r' then "\\r"
    else if c == '\t' then "\\t"
    else if c < ' ' then "\\u00" + [DigitChar(c as int / 16), DigitChar(c as int % 16)]
    else [c]
  }

  function JsonBody(s: string): string
  {
    if s == [] then [] else JsonChar(s[0]) + JsonBody(s[1..])
  }

  /** `JSON.stringify(s)` for a string. */
  function JsonQuote(s: string): (r: string)
    ensures |r| >= 2 && r[0] == '"' && r[|r| - 1] == '"'
  {
    "\"" + JsonBody(s) + "\""
  }

  /** A string without quotes, backslashes or control characters is quoted verbatim. */
  lemma {:induction false} JsonQuotePlain(s: string)
    requires forall i :: 0 <= i < |s| ==> !(s[i] == '"' || s[i] == '\\' || s[i] < ' ')
    ensures JsonQuote(s) == "\"" + s + "\""
  {
    JsonBodyPlain(s);
  }

  lemma {:induction false} JsonBodyPlain(s: string)
    requires forall i :: 0 <= i < |s| ==> !(s[i] == '"' || s[i] == '\\' || s[i] < ' ')
    ensures JsonBody(s) == s
  {
    if s != [] {
      JsonBodyPlain(s[1..]);
      assert [s[0]] + s[1..] == s;
    }
  }

  /** `JSON.stringify(xs)` for an array of strings (no spacing). */
  function JsonArray(xs: seq<string>): (r: string)
    ensures |r| >= 2 && r[0] == '[' && r[|r| - 1] == ']'
  {
    "[" + Join(MapJsonQuote(xs), ",") + "]"
  }

  function MapJsonQuote(xs: seq<string>): (r: seq<string>)
    ensures |r| == |xs| && forall i :: 0 <= i < |xs| ==> r[i] == JsonQuote(xs[i])
  {
    seq(|xs|, i requires 0 <= i < |xs| => JsonQuote(xs[i]))
  }
}
