/** Counting facts about finite collections of indices. */
module Sets {

  /** No value occurs twice. */
  predicate Distinct(s: seq<int>)
  {
    forall i, j :: 0 <= i < j < |s| ==> s[i] != s[j]
  }

  /** A list of distinct values in [0, n) has at most n entries. */
  lemma DistinctBelow(s: seq<int>, n: nat)
    requires Distinct(s) && forall x :: x in s ==> 0 <= x < n
    ensures |s| <= n
  {
    DistinctCard(s);
    var xs := set x | x in s;
    SubsetBelow(xs, n);
  }

  lemma {:induction false} DistinctCard(s: seq<int>)
    requires Distinct(s)
    ensures |set x | x in s| == |s|
  {
    if s != [] {
      var init := s[..|s| - 1];
      DistinctCard(init);
      assert (set x | x in s) == (set x | x in init) + {s[|s| - 1]};
    }
  }

  lemma {:induction false} SubsetBelow(xs: set<int>, n: nat)
    requires forall x :: x in xs ==> 0 <= x < n
    ensures |xs| <= n
  {
    if n > 0 {
      SubsetBelow(xs - {n - 1}, n - 1);
    } else {
      assert forall x :: x !in xs;
      assert xs == {};
    }
  }
}
