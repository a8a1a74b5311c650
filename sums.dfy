/**
 * The two reductions the coverage tables use: pandas' `Series.sum()` over a
 * column of areas or counts, and `Series.unique()` (the distinct values of a
 * column, in order of first appearance) that `ZoneQOV` sums.
 */
module Sums {
  /** The sum of a column, added up from the first row to the last. */
  function Sum(xs: seq<real>): real {
    if xs == [] then 0.0 else Sum(xs[..|xs| - 1]) + xs[|xs| - 1]
  }

  /** A column of non-negative values has a sum no smaller than any of its values, and no negative sum. */
  lemma {:induction false} SumBoundsEach(xs: seq<real>)
    requires forall i :: 0 <= i < |xs| ==> xs[i] >= 0.0
    ensures Sum(xs) >= 0.0
    ensures forall i :: 0 <= i < |xs| ==> xs[i] <= Sum(xs)
  {
    if xs != [] {
      SumBoundsEach(xs[..|xs| - 1]);
    }
  }

  /** A column holding c on each of its n rows sums to n * c. */
  lemma {:induction false} SumConstant(xs: seq<real>, c: real)
    requires forall i :: 0 <= i < |xs| ==> xs[i] == c
    ensures Sum(xs) == |xs| as real * c
  {
    if xs != [] {
      SumConstant(xs[..|xs| - 1], c);
    }
  }

  /** The distinct values of xs, each at the place of its first appearance. */
  function Unique<T(==)>(xs: seq<T>): seq<T> {
    if xs == [] then []
    else
      var u := Unique(xs[..|xs| - 1]);
      if xs[|xs| - 1] in u then u else u + [xs[|xs| - 1]]
  }

  /** Unique keeps every value of xs, adds none, and repeats none. */
  lemma {:induction false} UniqueSpec<T>(xs: seq<T>)
    ensures forall x :: x in Unique(xs) <==> x in xs
    ensures forall i, j :: 0 <= i < j < |Unique(xs)| ==> Unique(xs)[i] != Unique(xs)[j]
  {
    if xs != [] {
      UniqueSpec(xs[..|xs| - 1]);
      assert xs == xs[..|xs| - 1] + [xs[|xs| - 1]];
    }
  }

  /** A non-empty set has an element. */
  lemma HasElement(s: set<real>)
    requires s != {}
    ensures exists x :: x in s
  {
    if forall x :: x !in s {
      assert false;
    }
  }

  /** The sum of a finite set of values, each counted once. */
  ghost function SetSum(s: set<real>): real
    decreases |s|
  {
    if s == {} then 0.0
    else
      HasElement(s);
      var x :| x in s;
      x + SetSum(s - {x})
  }

  /** SetSum does not depend on the order in which elements are taken out. */
  lemma SetSumRemove(s: set<real>, y: real)
    requires y in s
    ensures SetSum(s) == y + SetSum(s - {y})
    decreases |s|
  {
    var x :| x in s && SetSum(s) == x + SetSum(s - {x});
    if x != y {
      SetSumRemove(s - {x}, y);
      SetSumRemove(s - {y}, x);
      assert s - {x} - {y} == s - {y} - {x};
    }
  }

  /** The values of a column, as a set. */
  function Values(xs: seq<real>): set<real> {
    set x | x in xs
  }

  /** Summing the unique values of a column adds each distinct value exactly once. */
  lemma {:induction false} SumUnique(xs: seq<real>)
    ensures Sum(Unique(xs)) == SetSum(Values(xs))
  {
    if xs == [] {
      assert Values(xs) == {};
    } else {
      var init, x := xs[..|xs| - 1], xs[|xs| - 1];
      SumUnique(init);
      UniqueSpec(init);
      var u := Unique(init);
      assert xs == init + [x];
      assert Values(xs) == Values(init) + {x};
      if x in u {
        assert Values(xs) == Values(init);
      } else {
        assert (u + [x])[..|u + [x]| - 1] == u;
        SetSumRemove(Values(xs), x);
        assert Values(xs) - {x} == Values(init);
      }
    }
  }
}
