// The Jaccard score of server/services/jaccardSimilarity.js. Both arguments
// are arrays; the "intersection" keeps setA's order and repeats, the union
// is a true set, and the quotient has no guard.

module Jaccard {
  import opened Seqs

  /** A JavaScript number as far as this quotient can produce one: a finite
      value, or NaN from 0 / 0. */
  datatype Number = Finite(value: real) | NaN

  /** The arrays hold extracted features, which are strings; `includes`
      compares them by value. */
  type Value = string

  /** Line 2: the elements of setA, in order and with repeats, that occur
      anywhere in setB. */
  function Intersection(setA: seq<Value>, setB: seq<Value>): (r: seq<Value>)
    ensures |r| <= |setA|
    ensures forall x :: x in r <==> x in setA && x in setB
  {
    if |setA| == 0 then []
    else
      var front := setA[..|setA| - 1];
      var x := setA[|setA| - 1];
      assert setA == front + [x];
      var p := Intersection(front, setB);
      if x in setB then p + [x] else p
  }

  /** Line 3: the distinct elements of both arrays. */
  function Union(setA: seq<Value>, setB: seq<Value>): (r: set<Value>)
    ensures forall x :: x in r <==> x in setA || x in setB
    ensures |r| <= |setA| + |setB|
    ensures |r| == 0 <==> |setA| == 0 && |setB| == 0
  {
    var all := setA + setB;
    ElemsCard(all);
    assert forall x :: x in all <==> x in setA || x in setB;
    Elems(all)
  }

  lemma QuotientBounds(n: nat, d: nat)
    requires 0 < d
    ensures 0.0 <= n as real / d as real
    ensures n <= d ==> n as real / d as real <= 1.0
    ensures n == d ==> n as real / d as real == 1.0
  {
    var q := n as real / d as real;
    assert q * (d as real) == n as real;
  }

  /** Line 5: intersection count over union size, NaN when both are empty. */
  function JaccardSimilarity(setA: seq<Value>, setB: seq<Value>): (r: Number)
    ensures r.NaN? <==> |setA| == 0 && |setB| == 0
    ensures r.Finite? ==> 0.0 <= r.value
  {
    var count := |Intersection(setA, setB)|;
    var size := |Union(setA, setB)|;
    if size == 0 then NaN
    else
      QuotientBounds(count, size);
      Finite(count as real / size as real)
  }

  // ---------------------------------------------------------------------
  // The filter keeps setA's order
  // ---------------------------------------------------------------------

  /** Filtering a concatenation filters each part; with the one-element case
      below this determines the intersection completely. */
  lemma {:induction false} IntersectionAppend(a1: seq<Value>, a2: seq<Value>, setB: seq<Value>)
    ensures Intersection(a1 + a2, setB) == Intersection(a1, setB) + Intersection(a2, setB)
  {
    if |a2| > 0 {
      var front := a2[..|a2| - 1];
      var x := a2[|a2| - 1];
      assert (a1 + a2)[..|a1 + a2| - 1] == a1 + front;
      assert (a1 + a2)[|a1 + a2| - 1] == x;
      IntersectionAppend(a1, front, setB);
    } else {
      assert a1 + a2 == a1;
    }
  }

  /** Each value of setB is counted as often as setA holds it. */
  lemma {:induction false} IntersectionCountOf(setA: seq<Value>, setB: seq<Value>, x: Value)
    ensures multiset(Intersection(setA, setB))[x] == if x in setB then multiset(setA)[x] else 0
  {
    if |setA| > 0 {
      var front := setA[..|setA| - 1];
      assert setA == front + [setA[|setA| - 1]];
      IntersectionCountOf(front, setB, x);
    }
  }

  lemma IntersectionSingle(x: Value, setB: seq<Value>)
    ensures Intersection([x], setB) == if x in setB then [x] else []
  {
    assert [x][..0] == [];
  }

  /** Every element of setA occurs in setB: nothing is filtered out. */
  lemma {:induction false} IntersectionAll(setA: seq<Value>, setB: seq<Value>)
    requires forall x :: x in setA ==> x in setB
    ensures Intersection(setA, setB) == setA
  {
    if |setA| > 0 {
      var front := setA[..|setA| - 1];
      assert setA == front + [setA[|setA| - 1]];
      IntersectionAll(front, setB);
    }
  }

  /** No element of setA occurs in setB: everything is filtered out. */
  lemma {:induction false} IntersectionNone(setA: seq<Value>, setB: seq<Value>)
    requires forall x :: x in setA ==> x !in setB
    ensures Intersection(setA, setB) == []
  {
    if |setA| > 0 {
      var front := setA[..|setA| - 1];
      assert setA == front + [setA[|setA| - 1]];
      IntersectionNone(front, setB);
    }
  }

  /** Without repeats in setA there are none in the intersection. */
  lemma {:induction false} IntersectionDistinct(setA: seq<Value>, setB: seq<Value>)
    requires Distinct(setA)
    ensures Distinct(Intersection(setA, setB))
  {
    if |setA| > 0 {
      var front := setA[..|setA| - 1];
      var x := setA[|setA| - 1];
      IntersectionDistinct(front, setB);
      var p := Intersection(front, setB);
      if x in setB {
        assert x !in p;
        assert (p + [x])[..|p|] == p;
      }
    }
  }

  /** Without repeats in setA the count is the number of shared values. */
  lemma IntersectionCount(setA: seq<Value>, setB: seq<Value>)
    requires Distinct(setA)
    ensures |Intersection(setA, setB)| == |Elems(setA) * Elems(setB)|
  {
    var r := Intersection(setA, setB);
    IntersectionDistinct(setA, setB);
    ElemsCard(r);
    assert Elems(r) == Elems(setA) * Elems(setB);
  }

  // ---------------------------------------------------------------------
  // The union
  // ---------------------------------------------------------------------

  lemma UnionSymmetric(setA: seq<Value>, setB: seq<Value>)
    ensures Union(setA, setB) == Union(setB, setA)
  {
  }

  // ---------------------------------------------------------------------
  // The score
  // ---------------------------------------------------------------------

  /** No shared value, not both empty: the score is 0. */
  lemma JaccardDisjoint(setA: seq<Value>, setB: seq<Value>)
    requires forall x :: x in setA ==> x !in setB
    requires |setA| > 0 || |setB| > 0
    ensures JaccardSimilarity(setA, setB) == Finite(0.0)
  {
    IntersectionNone(setA, setB);
  }

  /** Without repeats in setA the score is at most 1. */
  lemma JaccardAtMostOne(setA: seq<Value>, setB: seq<Value>)
    requires Distinct(setA)
    requires |setA| > 0 || |setB| > 0
    ensures JaccardSimilarity(setA, setB).Finite?
    ensures JaccardSimilarity(setA, setB).value <= 1.0
  {
    var r := Intersection(setA, setB);
    IntersectionDistinct(setA, setB);
    ElemsCard(r);
    assert Elems(r) <= Union(setA, setB);
    assert |Elems(r)| <= |Union(setA, setB)| by {
      SubsetCard(Elems(r), Union(setA, setB));
    }
    QuotientBounds(|r|, |Union(setA, setB)|);
  }

  lemma SubsetCard(small: set<Value>, big: set<Value>)
    requires small <= big
    ensures |small| <= |big|
  {
    assert big == small + (big - small);
  }

  /** Repeats in setA are all counted: [x, x] against [x] scores 2. */
  lemma JaccardRepeatsExceedOne()
    ensures JaccardSimilarity(["x", "x"], ["x"]) == Finite(2.0)
  {
    assert ["x", "x"][..1] == ["x"] && ["x"][..0] == [];
    assert Intersection(["x", "x"], ["x"]) == ["x", "x"];
    assert Union(["x", "x"], ["x"]) == {"x"};
  }

  /** The score is not symmetric: swapping [x, x] and [x] changes it. */
  lemma JaccardNotSymmetric()
    ensures JaccardSimilarity(["x", "x"], ["x"]) != JaccardSimilarity(["x"], ["x", "x"])
  {
    JaccardRepeatsExceedOne();
    assert ["x"][..0] == [];
    assert Intersection(["x"], ["x", "x"]) == ["x"];
    assert Union(["x"], ["x", "x"]) == {"x"};
  }

  /** Without repeats on either side swapping the arguments changes nothing. */
  lemma JaccardSymmetricWhenDistinct(setA: seq<Value>, setB: seq<Value>)
    requires Distinct(setA) && Distinct(setB)
    ensures JaccardSimilarity(setA, setB) == JaccardSimilarity(setB, setA)
  {
    IntersectionCount(setA, setB);
    IntersectionCount(setB, setA);
    assert Elems(setA) * Elems(setB) == Elems(setB) * Elems(setA);
    UnionSymmetric(setA, setB);
  }

  /** A non-empty array without repeats scores 1 against itself. */
  lemma JaccardSelf(s: seq<Value>)
    requires Distinct(s) && |s| > 0
    ensures JaccardSimilarity(s, s) == Finite(1.0)
  {
    IntersectionAll(s, s);
    ElemsCard(s);
    assert Union(s, s) == Elems(s);
    QuotientBounds(|s|, |s|);
  }
}
