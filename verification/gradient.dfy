/**
 * The gradient maker in js/gradient.js: the CSS `background` value built from the
 * two colour fields, the gradient type menu and the angle and stop fields, the text
 * the Copy CSS button puts on the clipboard, and the preset cards that fill the
 * fields.
 */
module Gradient {
  import opened Js

  /** The text of the six inputs: two colours, the type menu, the angle and the two
      stop positions. */
  datatype Fields = Fields(c1: string, c2: string, kind: string, angle: string, pos1: string, pos2: string)

  /** `parseInt(ang.value) || 0`. */
  function Angle(f: Fields): int
  {
    OrElse(ParseInt(f.angle, 0), 0)
  }

  /** `parseInt(p1.value) || 0`. */
  function Stop1(f: Fields): int
  {
    OrElse(ParseInt(f.pos1, 0), 0)
  }

  /** `parseInt(p2.value) || 100`. */
  function Stop2(f: Fields): int
  {
    OrElse(ParseInt(f.pos2, 0), 100)
  }

  /** The two colour stops, `c1 s1%, c2 s2%`. */
  function StopList(f: Fields): string
  {
    f.c1 + " " + IntToString(Stop1(f)) + "%, " + f.c2 + " " + IntToString(Stop2(f)) + "%)"
  }

  /** The gradient function and its first argument: a linear gradient along the
      angle, a circular radial gradient, or (for any other type) a conic gradient
      starting at the angle. */
  function Head(f: Fields): string
  {
    HeadFor(f.kind, IntToString(Angle(f)))
  }

  /** The opening for type `kind` and the angle written as `deg`. */
  function HeadFor(kind: string, deg: string): string
  {
    if kind == "linear" then "linear-gradient(" + deg + "deg, "
    else if kind == "radial" then "radial-gradient(circle, "
    else "conic-gradient(from " + deg + "deg, "
  }

  /** `css()`. */
  function Css(f: Fields): string
  {
    Head(f) + StopList(f)
  }

  /** The text the Copy CSS button writes. */
  function CopyText(f: Fields): string
  {
    "background: " + Css(f) + ";"
  }

  /** The gradient function is chosen by the type menu alone. */
  lemma CssKind(f: Fields)
    ensures f.kind == "linear" <==> StartsWith(Css(f), "linear-gradient(")
    ensures f.kind == "radial" <==> StartsWith(Css(f), "radial-gradient(circle, ")
    ensures f.kind != "linear" && f.kind != "radial" <==> StartsWith(Css(f), "conic-gradient(from ")
  {
    KindOpening(f.kind, IntToString(Angle(f)), StopList(f));
  }

  /** Whatever follows the opening, the text starts with the opening of its type and
      with no other. */
  lemma KindOpening(kind: string, deg: string, t: string)
    ensures kind == "linear" <==> StartsWith(HeadFor(kind, deg) + t, "linear-gradient(")
    ensures kind == "radial" <==> StartsWith(HeadFor(kind, deg) + t, "radial-gradient(circle, ")
    ensures kind != "linear" && kind != "radial" <==> StartsWith(HeadFor(kind, deg) + t, "conic-gradient(from ")
  {
    var s := HeadFor(kind, deg) + t;
    if kind == "linear" {
      Prefixed("linear-gradient(", deg + "deg, ", t);
    } else if kind == "radial" {
      Prefixed("radial-gradient(circle, ", "", t);
    } else {
      Prefixed("conic-gradient(from ", deg + "deg, ", t);
    }
    Unprefixed(s, "linear-gradient(");
    Unprefixed(s, "radial-gradient(circle, ");
    Unprefixed(s, "conic-gradient(from ");
  }

  /** p + mid + t starts with p and with p's first letter. */
  lemma Prefixed(p: string, mid: string, t: string)
    requires p != []
    ensures StartsWith(p + mid + t, p) && (p + mid + t)[0] == p[0]
  {
    assert (p + mid + t)[..|p|] == p;
  }

  /** Every value closes its parenthesis. */
  lemma CssCloses(f: Fields)
    ensures Css(f) != [] && Css(f)[|Css(f)| - 1] == ')'
  {
    var t := StopList(f);
    assert t[|t| - 1] == ')';
    Framed(Head(f), t, ")");
  }

  /** p + m starts with p, and ends with the end of m when m ends with s. */
  lemma Framed(p: string, m: string, s: string)
    requires |s| <= |m| && m[|m| - |s|..] == s
    ensures StartsWith(p + m, p) && (p + m)[..|p|] == p
    ensures (p + m)[|p + m| - |s|..] == s
  {
    assert (p + m)[|p + m| - |s|..] == m[|m| - |s|..];
  }

  /** A string starting with p has p's first character first. */
  lemma Unprefixed(s: string, p: string)
    requires p != []
    ensures StartsWith(s, p) ==> s[0] == p[0]
  {
    if StartsWith(s, p) {
      assert s[..|p|][0] == s[0];
    }
  }

  /** The angle field has no effect on a radial gradient, and on the others only
      through its parsed value. */
  lemma AngleUse(f: Fields, a: string)
    ensures f.kind == "radial" ==> Css(f.(angle := a)) == Css(f)
    ensures Angle(f.(angle := a)) == Angle(f) ==> Css(f.(angle := a)) == Css(f)
  {
  }

  /** The field defaults: an empty or non-numeric angle or first stop counts as 0; an
      empty, non-numeric or zero second stop counts as 100; any other number is used
      as entered. */
  lemma FieldDefaults(f: Fields)
    ensures ParseInt(f.angle, 0).None? ==> Angle(f) == 0
    ensures ParseInt(f.pos1, 0).None? ==> Stop1(f) == 0
    ensures ParseInt(f.pos2, 0) == None || ParseInt(f.pos2, 0) == Some(0) ==> Stop2(f) == 100
    ensures ParseInt(f.angle, 0).Some? ==> Angle(f) == ParseInt(f.angle, 0).value
    ensures ParseInt(f.pos1, 0).Some? ==> Stop1(f) == ParseInt(f.pos1, 0).value
    ensures ParseInt(f.pos2, 0).Some? && ParseInt(f.pos2, 0).value != 0 ==> Stop2(f) == ParseInt(f.pos2, 0).value
  {
  }

  /** The clipboard text is a CSS declaration of the background property whose value
      is the gradient. */
  lemma CopyTextSpec(f: Fields)
    ensures var t := CopyText(f);
      StartsWith(t, "background: ") && t[|t| - 1] == ';' && t[12..|t| - 1] == Css(f)
  {
    var t := CopyText(f);
    Framed("background: ", Css(f) + ";", ";");
    assert t[12..|t| - 1] == Css(f);
  }

  /** A click on a preset card: both colours and the angle are set and the type
      becomes linear. */
  function ApplyPreset(f: Fields, a: string, b: string, deg: int): Fields
  {
    f.(c1 := a, c2 := b, angle := IntToString(deg), kind := "linear")
  }

  /** After a preset click the gradient is the preset's linear gradient at its
      angle, with the stops left as they were: the angle written to the field is read
      back unchanged. */
  lemma PresetGradient(f: Fields, a: string, b: string, deg: int)
    ensures var g := ApplyPreset(f, a, b, deg);
      Angle(g) == deg && Head(g) == HeadFor("linear", IntToString(deg)) &&
      Stop1(g) == Stop1(f) && Stop2(g) == Stop2(f)
  {
    IntToStringRoundTrip(deg, 0);
  }
}
