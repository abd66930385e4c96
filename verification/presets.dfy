/**
 * The preset library browser in js/presets.js: the category menu built from the
 * library, the search filter that chooses which palettes are shown, and what a
 * click on a palette hands to the rest of the toolbox.
 *
 * The library itself is a parameter: its fifty-odd entries are data, and the
 * shuffle button reorders it with `Math.random`.
 */
module Presets {
  import opened Js

  /** One library entry: category, name and colour list. */
  datatype Preset = Preset(cat: string, name: string, colors: seq<string>)

  // ---------------------------------------------------------------------------
  // The search filter
  // ---------------------------------------------------------------------------

  /** Whether `render` shows preset p for the category menu value `cat` and the search
      box text `search`. */
  predicate Keep(p: Preset, cat: string, search: string)
  {
    var q := ToLower(search);
    (cat == "All" || p.cat == cat) &&
    (q == [] || Includes(ToLower(p.name), q) || Includes(ToLower(Join(p.colors, "")), q))
  }

  /** `LIB.filter(...)`: the presets shown. */
  function Filter(lib: seq<Preset>, cat: string, search: string): seq<Preset>
  {
    if lib == [] then []
    else (if Keep(lib[0], cat, search) then [lib[0]] else []) + Filter(lib[1..], cat, search)
  }

  /** a is b with some entries dropped, the rest in their order. */
  predicate Subsequence<T(==)>(a: seq<T>, b: seq<T>)
    decreases |b|
  {
    a == [] || (b != [] && ((a[0] == b[0] && Subsequence(a[1..], b[1..])) || Subsequence(a, b[1..])))
  }

  /** A preset is shown exactly when it is in the library and passes the filter. */
  lemma {:induction false} FilterMembers(lib: seq<Preset>, cat: string, search: string, p: Preset)
    ensures p in Filter(lib, cat, search) <==> p in lib && Keep(p, cat, search)
  {
    if lib != [] {
      FilterMembers(lib[1..], cat, search, p);
      assert lib == [lib[0]] + lib[1..];
    }
  }

  /** The presets shown keep their library order. */
  lemma {:induction false} FilterOrder(lib: seq<Preset>, cat: string, search: string)
    ensures Subsequence(Filter(lib, cat, search), lib)
  {
    if lib != [] {
      var rest := Filter(lib[1..], cat, search);
      FilterOrder(lib[1..], cat, search);
      if Keep(lib[0], cat, search) {
        assert Filter(lib, cat, search) == [lib[0]] + rest;
        assert ([lib[0]] + rest)[1..] == rest;
      } else {
        assert Filter(lib, cat, search) == rest;
      }
    }
  }

  /** With "All" selected and an empty search box every preset is shown. */
  lemma {:induction false} FilterShowsAll(lib: seq<Preset>)
    ensures Filter(lib, "All", "") == lib
  {
    if lib != [] {
      FilterShowsAll(lib[1..]);
      assert [lib[0]] + lib[1..] == lib;
    }
  }

  /** The colours are joined with no separator, so a query can span the end of one
      colour and the start of the next. */
  lemma JoinedColoursMatchAcross()
    ensures Keep(Preset("Warm", "Sunset Glow", ["#FF6B6B", "#F7B267"]), "All", "6B#F7")
  {
    var joined := ToLower(Join(["#FF6B6B", "#F7B267"], ""));
    assert Join(["#FF6B6B", "#F7B267"], "") == "#FF6B6B#F7B267";
    assert joined == "#ff6b6b#f7b267";
    assert ToLower("6B#F7") == "6b#f7";
    IncludesAt(joined, "6b#f7", 5);
  }

  // ---------------------------------------------------------------------------
  // The category menu
  // ---------------------------------------------------------------------------

  /** `[...new Set(xs)]`: each value once, in the order it first appears. */
  function Distinct(xs: seq<string>): seq<string>
  {
    if xs == [] then []
    else
      var r := Distinct(xs[..|xs| - 1]);
      if xs[|xs| - 1] in r then r else r + [xs[|xs| - 1]]
  }

  /** The position of the first x in xs. */
  function First(xs: seq<string>, x: string): (i: nat)
    requires x in xs
    ensures i < |xs| && xs[i] == x && forall j :: 0 <= j < i ==> xs[j] != x
  {
    if xs[0] == x then 0 else 1 + First(xs[1..], x)
  }

  lemma {:induction false} FirstAppend(xs: seq<string>, y: string, x: string)
    requires x in xs
    ensures First(xs + [y], x) == First(xs, x)
  {
    var i := First(xs, x);
    var k := First(xs + [y], x);
    assert (xs + [y])[i] == x;
    assert xs[k] == x;
  }

  /** The menu lists every value of xs, none twice, and in the order of their first
      appearance in xs. */
  lemma {:induction false} DistinctSpec(xs: seq<string>)
    ensures forall x :: x in Distinct(xs) <==> x in xs
    ensures forall i, j :: 0 <= i < j < |Distinct(xs)| ==>
      Distinct(xs)[i] != Distinct(xs)[j] && First(xs, Distinct(xs)[i]) < First(xs, Distinct(xs)[j])
  {
    if xs != [] {
      var init := xs[..|xs| - 1];
      var y := xs[|xs| - 1];
      assert xs == init + [y];
      DistinctSpec(init);
      var r0 := Distinct(init);
      if y in r0 {
        forall i, j | 0 <= i < j < |r0| ensures First(xs, r0[i]) < First(xs, r0[j]) {
          FirstAppend(init, y, r0[i]);
          FirstAppend(init, y, r0[j]);
        }
      } else {
        DistinctExtend(init, y, r0);
      }
    }
  }

  /** A value not seen before goes last, after every earlier first appearance. */
  lemma DistinctExtend(init: seq<string>, y: string, r0: seq<string>)
    requires y !in init && forall x :: x in r0 ==> x in init
    requires forall i, j :: 0 <= i < j < |r0| ==> r0[i] != r0[j] && First(init, r0[i]) < First(init, r0[j])
    ensures var xs, r := init + [y], r0 + [y];
      forall i, j :: 0 <= i < j < |r| ==> r[i] != r[j] && First(xs, r[i]) < First(xs, r[j])
  {
    var xs, r := init + [y], r0 + [y];
    var k := First(xs, y);
    assert k == |init|;
    forall i, j | 0 <= i < j < |r| ensures r[i] != r[j] && First(xs, r[i]) < First(xs, r[j]) {
      assert r[i] == r0[i] && r0[i] in init;
      FirstAppend(init, y, r0[i]);
      if j < |r0| {
        assert r[j] == r0[j] && r0[j] in init;
        FirstAppend(init, y, r0[j]);
      }
    }
  }

  /** The category options after "All": the distinct categories of the library in
      the order they first appear. */
  function CategoryMenu(lib: seq<Preset>): seq<string>
  {
    Distinct(seq(|lib|, i requires 0 <= i < |lib| => lib[i].cat))
  }

  /** Every category in the library has one option, and every option filters to at
      least one preset when the search box is empty. */
  lemma CategoryMenuSpec(lib: seq<Preset>, c: string)
    ensures c in CategoryMenu(lib) <==> exists p :: p in lib && p.cat == c
    ensures c in CategoryMenu(lib) && c != "All" ==> Filter(lib, c, "") != []
  {
    var cats := seq(|lib|, i requires 0 <= i < |lib| => lib[i].cat);
    DistinctSpec(cats);
    if c in cats {
      var i :| 0 <= i < |lib| && cats[i] == c;
      assert lib[i] in lib && lib[i].cat == c;
      FilterMembers(lib, c, "", lib[i]);
    }
    if exists p :: p in lib && p.cat == c {
      var p :| p in lib && p.cat == c;
      var i :| 0 <= i < |lib| && lib[i] == p;
      assert cats[i] == c;
    }
  }

  // ---------------------------------------------------------------------------
  // Choosing a preset
  // ---------------------------------------------------------------------------

  /** The palette the other tools read (`window.__palette`). */
  class SharedPalette {
    var colors: seq<string>

    constructor()
      ensures colors == []
    {
      colors := [];
    }

    /** A click on preset p: the shared palette becomes a copy of its colours; the
        first colour becomes the base colour of the generator panels, and the JSON
        list of colours is the text put on the clipboard. */
    method Choose(p: Preset) returns (base: Option<string>, clipboard: string)
      modifies this
      ensures colors == p.colors
      ensures base == if p.colors == [] then None else Some(p.colors[0])
      ensures clipboard == JsonArray(p.colors)
    {
      base := if p.colors == [] then None else Some(p.colors[0]);
      colors := p.colors;
      clipboard := JsonArray(p.colors);
    }
  }
}
