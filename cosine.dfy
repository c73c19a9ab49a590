/** Cosine similarity of two TF-IDF vectors whose term lists are not
    aligned (server/services/cosineSimilarity.js).

    `alignVectors` merges both term lists into one term-keyed object and
    reads two equally long weight arrays back out of it; `cosineSimilarity`
    folds them into a dot product and two magnitudes. `Math.sqrt` is the
    parameter `sqrt`, constrained by `SqrtLike` (and by `IsSqrt`
    where a lemma needs the square root's defining property). */
module Cosine {
  import opened Seqs
  import opened Vectors

  // ---------------------------------------------------------------------
  // Reference definitions
  // ---------------------------------------------------------------------

  /** The weight a vector gives a term: that of the LAST entry with the term,
      since a later entry overwrites an earlier one in the term map; 0 for a
      term the vector does not list. */
  function Weight(v: SparseVector, t: string): (r: real)
    ensures t !in Terms(v) ==> r == 0.0
  {
    if |v| == 0 then 0.0
    else if v[|v| - 1].term == t then
      assert Terms(v)[|v| - 1] == t;
      v[|v| - 1].tfidf
    else
      assert Terms(v[..|v| - 1]) == Terms(v)[..|v| - 1];
      Weight(v[..|v| - 1], t)
  }

  /** Lines 7 and 14: the entry that counts is the last one listing the term. */
  lemma {:induction false} WeightIsLastEntry(v: SparseVector, t: string, i: nat)
    requires i < |v| && v[i].term == t
    requires forall j :: i < j < |v| ==> v[j].term != t
    ensures Weight(v, t) == v[i].tfidf
  {
    if i < |v| - 1 {
      WeightIsLastEntry(v[..|v| - 1], t, i);
    }
  }

  /** Reading one more entry of a vector. */
  lemma WeightExtend(v: SparseVector, i: nat, t: string)
    requires i < |v|
    ensures Weight(v[..i + 1], t) == if v[i].term == t then v[i].tfidf else Weight(v[..i], t)
  {
    assert v[..i + 1][..i] == v[..i];
  }

  /** The terms of `s` in order of first appearance, each once: the order in
      which the term map receives its keys. */
  function Dedup(s: seq<string>): (r: seq<string>)
    ensures Distinct(r)
    ensures Elems(r) == Elems(s)
  {
    if |s| == 0 then []
    else
      var p := s[..|s| - 1];
      var x := s[|s| - 1];
      var d := Dedup(p);
      assert s == p + [x];
      assert Elems(s) == Elems(p) + {x};
      if x in p then d
      else
        assert x !in d;
        assert (d + [x])[..|d|] == d;
        assert Elems(d + [x]) == Elems(d) + {x};
        d + [x]
  }

  /** The distinct terms of one vector. */
  function DistinctTerms(v: SparseVector): seq<string>
  {
    Dedup(Terms(v))
  }

  /** The key order of the merged term map: every term of `vectorA`, then
      every term of `vectorB` that `vectorA` lacks, each at its first
      appearance. */
  function AlignedTerms(vectorA: SparseVector, vectorB: SparseVector): seq<string>
  {
    Dedup(Terms(vectorA) + Terms(vectorB))
  }

  /** The key order starts with vectorA's distinct terms, in their order. */
  lemma AlignedTermsOrder(vectorA: SparseVector, vectorB: SparseVector)
    ensures |DistinctTerms(vectorA)| <= |AlignedTerms(vectorA, vectorB)|
    ensures AlignedTerms(vectorA, vectorB)[..|DistinctTerms(vectorA)|] == DistinctTerms(vectorA)
  {
    DedupPrefix(Terms(vectorA), Terms(vectorB));
  }

  /** Later elements never disturb the order of first appearance of the
      earlier ones. */
  lemma {:induction false} DedupPrefix(s1: seq<string>, s2: seq<string>)
    ensures |Dedup(s1)| <= |Dedup(s1 + s2)| && Dedup(s1 + s2)[..|Dedup(s1)|] == Dedup(s1)
  {
    if |s2| == 0 {
      assert s1 + s2 == s1;
    } else {
      var front := s2[..|s2| - 1];
      var all := s1 + s2;
      assert all[..|all| - 1] == s1 + front;
      DedupPrefix(s1, front);
      var d := Dedup(s1 + front);
      assert Dedup(all) == d || Dedup(all) == d + [all[|all| - 1]];
      assert (d + [all[|all| - 1]])[..|Dedup(s1)|] == d[..|Dedup(s1)|];
    }
  }

  /** One vector's weights read off along a key order. */
  function Column(keys: seq<string>, v: SparseVector): (r: seq<real>)
    ensures |r| == |keys|
  {
    seq(|keys|, k requires 0 <= k < |keys| => Weight(v, keys[k]))
  }

  /** The product of two weights. */
  function Times(x: real, y: real): real
  {
    x * y
  }

  /** The product of the two vectors' weights of a term. */
  function ProductOf(va: SparseVector, vb: SparseVector): string -> real
  {
    t => Times(Weight(va, t), Weight(vb, t))
  }

  /** Sum of `f` over `keys`, added up from the front as `reduce` does. */
  function SumOver(keys: seq<string>, f: string -> real): real
  {
    if |keys| == 0 then 0.0
    else SumOver(keys[..|keys| - 1], f) + f(keys[|keys| - 1])
  }

  /** The squared Euclidean length of a vector, over its own terms only. */
  function SquaredMagnitude(v: SparseVector): real
  {
    SumOver(DistinctTerms(v), ProductOf(v, v))
  }

  /** The sum over `vectorA`'s own terms of the products of the weights. */
  function Overlap(vectorA: SparseVector, vectorB: SparseVector): real
  {
    SumOver(DistinctTerms(vectorA), ProductOf(vectorA, vectorB))
  }

  // ---------------------------------------------------------------------
  // alignVectors (lines 2-27)
  // ---------------------------------------------------------------------

  /** A term-map entry: the weight from each side. */
  datatype Slot = Slot(a: real, b: real)

  /** The term map after reading `va` on the `a` side and `vb` on the `b`
      side: its keys, in order, are the merged terms, and each slot holds the
      last weight each side gave the term (0 where that side lacks it). */
  ghost predicate MapReflects(keys: seq<string>, termMap: map<string, Slot>, va: SparseVector, vb: SparseVector)
  {
    && keys == AlignedTerms(va, vb)
    && termMap.Keys == Elems(keys)
    && forall t :: t in termMap ==> termMap[t] == Slot(Weight(va, t), Weight(vb, t))
  }

  /** Line 7, one entry of `vectorA`. */
  lemma InsertA(va: SparseVector, i: nat, keys: seq<string>, termMap: map<string, Slot>)
    requires i < |va| && MapReflects(keys, termMap, va[..i], [])
    ensures MapReflects(if va[i].term in termMap then keys else keys + [va[i].term],
                        termMap[va[i].term := Slot(va[i].tfidf, 0.0)], va[..i + 1], [])
  {
    assert va[..i + 1] == va[..i] + [va[i]];
    InsertFirst(va[..i], va[i], keys, termMap);
  }

  /** Line 7, one entry `x` of `vectorA` after the entries `va`. */
  lemma InsertFirst(va: SparseVector, x: TermWeight, keys: seq<string>, termMap: map<string, Slot>)
    requires MapReflects(keys, termMap, va, [])
    ensures MapReflects(if x.term in termMap then keys else keys + [x.term],
                        termMap[x.term := Slot(x.tfidf, 0.0)], va + [x], [])
  {
    var w := va + [x];
    assert w[..|va|] == va;
    assert Terms(w) + Terms([]) == (Terms(va) + Terms([])) + [x.term];
  }

  /** Lines 13-17, one entry `x` of `vectorB` after the entries `vb`. */
  lemma InsertNext(va: SparseVector, vb: SparseVector, x: TermWeight, keys: seq<string>, termMap: map<string, Slot>)
    requires MapReflects(keys, termMap, va, vb)
    ensures x.term in termMap ==>
              MapReflects(keys, termMap[x.term := termMap[x.term].(b := x.tfidf)], va, vb + [x])
    ensures x.term !in termMap ==>
              MapReflects(keys + [x.term], termMap[x.term := Slot(0.0, x.tfidf)], va, vb + [x])
  {
    var w := vb + [x];
    assert w[..|vb|] == vb;
    assert Terms(w) == Terms(vb) + [x.term];
    assert Terms(va) + Terms(w) == (Terms(va) + Terms(vb)) + [x.term];
    if x.term !in termMap {
      assert x.term !in Elems(Terms(va) + Terms(vb));
      assert x.term !in Terms(va);
    }
  }

  /** Lines 13-17, entry `j` of `vectorB`. */
  lemma InsertB(va: SparseVector, vb: SparseVector, j: nat, keys: seq<string>, termMap: map<string, Slot>)
    requires j < |vb| && MapReflects(keys, termMap, va, vb[..j])
    ensures vb[j].term in termMap ==>
              MapReflects(keys, termMap[vb[j].term := termMap[vb[j].term].(b := vb[j].tfidf)], va, vb[..j + 1])
    ensures vb[j].term !in termMap ==>
              MapReflects(keys + [vb[j].term], termMap[vb[j].term := Slot(0.0, vb[j].tfidf)], va, vb[..j + 1])
  {
    assert vb[..j + 1] == vb[..j] + [vb[j]];
    InsertNext(va, vb[..j], vb[j], keys, termMap);
  }

  /** Lines 6-8: the first loop, from an empty term map. The map then holds
      each term of `vectorA` once, in order of first appearance, with the
      last weight `vectorA` gives it and b = 0. */
  method InsertAll(vectorA: SparseVector) returns (keys: seq<string>, termMap: map<string, Slot>)
    ensures MapReflects(keys, termMap, vectorA, [])
  {
    keys, termMap := [], map[];
    var i := 0;
    while i < |vectorA|
      invariant 0 <= i <= |vectorA|
      invariant MapReflects(keys, termMap, vectorA[..i], [])
    {
      var item := vectorA[i];
      InsertA(vectorA, i, keys, termMap);
      if item.term !in termMap {
        keys := keys + [item.term];
      }
      termMap := termMap[item.term := Slot(item.tfidf, 0.0)];
      i := i + 1;
    }
    assert vectorA[..i] == vectorA;
  }

  /** The term map is an object updated in place: `keys` is its property
      order (insertion order), `termMap` its contents. Both output arrays are
      read from that one map, so slot `k` of each belongs to the same term. */
  method AlignVectors(vectorA: SparseVector, vectorB: SparseVector) returns (alignedA: seq<real>, alignedB: seq<real>)
    ensures |alignedA| == |alignedB| == |TermSet(vectorA) + TermSet(vectorB)|
    ensures alignedA == Column(AlignedTerms(vectorA, vectorB), vectorA)
    ensures alignedB == Column(AlignedTerms(vectorA, vectorB), vectorB)
  {
    var keys, termMap := InsertAll(vectorA);
    assert vectorB[..0] == [];
    var j := 0;
    while j < |vectorB|
      invariant 0 <= j <= |vectorB|
      invariant MapReflects(keys, termMap, vectorA, vectorB[..j])
    {
      var item := vectorB[j];
      if item.term in termMap {
        InsertB(vectorA, vectorB, j, keys, termMap);
        termMap := termMap[item.term := termMap[item.term].(b := item.tfidf)];
      } else {
        InsertB(vectorA, vectorB, j, keys, termMap);
        keys := keys + [item.term];
        termMap := termMap[item.term := Slot(0.0, item.tfidf)];
      }
      j := j + 1;
    }
    assert vectorB[..j] == vectorB;
    alignedA := seq(|keys|, k requires 0 <= k < |keys| => termMap[keys[k]].a);
    alignedB := seq(|keys|, k requires 0 <= k < |keys| => termMap[keys[k]].b);
    ReadColumns(keys, termMap, vectorA, vectorB);
  }

  /** Lines 21-22: reading the slots in key order gives the two columns. */
  lemma ReadColumns(keys: seq<string>, termMap: map<string, Slot>, va: SparseVector, vb: SparseVector)
    requires MapReflects(keys, termMap, va, vb)
    ensures |keys| == |TermSet(va) + TermSet(vb)|
    ensures seq(|keys|, k requires 0 <= k < |keys| => termMap[keys[k]].a) == Column(AlignedTerms(va, vb), va)
    ensures seq(|keys|, k requires 0 <= k < |keys| => termMap[keys[k]].b) == Column(AlignedTerms(va, vb), vb)
  {
    AlignedTermsCount(va, vb);
    forall k | 0 <= k < |keys|
      ensures termMap[keys[k]] == Slot(Weight(va, keys[k]), Weight(vb, keys[k]))
    {
      assert keys[k] in Elems(keys);
    }
  }

  /** One key per distinct term of the two vectors. */
  lemma AlignedTermsCount(va: SparseVector, vb: SparseVector)
    ensures |AlignedTerms(va, vb)| == |TermSet(va) + TermSet(vb)|
  {
    AlignedTermsCover(va, vb);
    ElemsCard(AlignedTerms(va, vb));
  }

  // ---------------------------------------------------------------------
  // The folds of cosineSimilarity (lines 35, 38-39)
  // ---------------------------------------------------------------------

  /** Line 35: the products of same-index entries, added up from the front. */
  function DotProduct(xs: seq<real>, ys: seq<real>): real
    requires |xs| == |ys|
  {
    if |xs| == 0 then 0.0
    else DotProduct(xs[..|xs| - 1], ys[..|ys| - 1]) + Times(xs[|xs| - 1], ys[|ys| - 1])
  }

  /** A column of zeros, such as a vector padded out entirely, gives a dot
      product of 0 whatever the other column holds. */
  lemma {:induction false} DotProductZeros(xs: seq<real>, ys: seq<real>)
    requires |xs| == |ys|
    requires (forall k :: 0 <= k < |xs| ==> xs[k] == 0.0) || (forall k :: 0 <= k < |ys| ==> ys[k] == 0.0)
    ensures DotProduct(xs, ys) == 0.0
  {
    if |xs| > 0 {
      DotProductZeros(xs[..|xs| - 1], ys[..|ys| - 1]);
    }
  }

  /** Lines 38-39: the squares of the entries, added up from the front;
      never negative. */
  function SumOfSquares(xs: seq<real>): (r: real)
    ensures r >= 0.0
  {
    if |xs| == 0 then 0.0
    else SumOfSquares(xs[..|xs| - 1]) + xs[|xs| - 1] * xs[|xs| - 1]
  }

  /** All that the cosine itself needs of `Math.sqrt`: on non-negative
      arguments it is non-negative and 0 exactly at 0. */
  ghost predicate SqrtLike(sqrt: real -> real)
  {
    forall x: real {:trigger sqrt(x)} :: 0.0 <= x ==> 0.0 <= sqrt(x) && (sqrt(x) == 0.0 <==> x == 0.0)
  }

  /** `Math.sqrt` over the reals: the non-negative square root. */
  ghost predicate IsSqrt(sqrt: real -> real)
  {
    && SqrtLike(sqrt)
    && forall x: real {:trigger sqrt(x)} :: 0.0 <= x ==> sqrt(x) * sqrt(x) == x
  }

  /** A vector's Euclidean length over its own terms; 0 exactly when its
      squared magnitude is 0. */
  function Magnitude(v: SparseVector, sqrt: real -> real): (r: real)
    requires SqrtLike(sqrt)
    ensures r >= 0.0
    ensures r == 0.0 <==> SquaredMagnitude(v) == 0.0
  {
    SquaredMagnitudeNonNegative(v);
    SqrtZero(sqrt, SquaredMagnitude(v));
    sqrt(SquaredMagnitude(v))
  }

  /** Line 41: 0 when either magnitude is 0, otherwise the number that,
      multiplied by both magnitudes, gives the dot product. */
  function Guarded(dotProduct: real, magnitudeA: real, magnitudeB: real): (r: real)
    ensures magnitudeA == 0.0 || magnitudeB == 0.0 ==> r == 0.0
    ensures magnitudeA != 0.0 && magnitudeB != 0.0 ==> r * (magnitudeA * magnitudeB) == dotProduct
  {
    if magnitudeA != 0.0 && magnitudeB != 0.0 then dotProduct / (magnitudeA * magnitudeB) else 0.0
  }

  /** Lines 32-41 over an arbitrary enumeration `order` of the term map. If
      either aligned array has no non-zero entry the result is 0. */
  function CosineFor(order: seq<string>, vectorA: SparseVector, vectorB: SparseVector, sqrt: real -> real): (r: real)
    requires SqrtLike(sqrt)
    ensures SumOfSquares(Column(order, vectorA)) == 0.0 || SumOfSquares(Column(order, vectorB)) == 0.0 ==> r == 0.0
  {
    var alignedA := Column(order, vectorA);
    var alignedB := Column(order, vectorB);
    Guarded(DotProduct(alignedA, alignedB), sqrt(SumOfSquares(alignedA)), sqrt(SumOfSquares(alignedB)))
  }

  // ---------------------------------------------------------------------
  // cosineSimilarity (lines 30-45)
  // ---------------------------------------------------------------------

  /** The cosine of two sparse vectors. If either has squared magnitude 0
      (an empty vector, say) the result is exactly 0; otherwise it is the
      sum of weight products over `vectorA`'s terms divided by the product
      of the two magnitudes, each taken over the vector's own terms. */
  function CosineSimilarity(vectorA: SparseVector, vectorB: SparseVector, sqrt: real -> real): (r: real)
    requires SqrtLike(sqrt)
    ensures Magnitude(vectorA, sqrt) == 0.0 || Magnitude(vectorB, sqrt) == 0.0 ==> r == 0.0
    ensures Magnitude(vectorA, sqrt) != 0.0 && Magnitude(vectorB, sqrt) != 0.0 ==>
              r == Overlap(vectorA, vectorB) / (Magnitude(vectorA, sqrt) * Magnitude(vectorB, sqrt))
  {
    AlignedTermsCover(vectorA, vectorB);
    CosineForValue(AlignedTerms(vectorA, vectorB), vectorA, vectorB, sqrt);
    GuardedValue(Overlap(vectorA, vectorB), Magnitude(vectorA, sqrt), Magnitude(vectorB, sqrt));
    CosineFor(AlignedTerms(vectorA, vectorB), vectorA, vectorB, sqrt)
  }

  /** The guard of line 41 on its own. */
  lemma GuardedValue(dotProduct: real, magnitudeA: real, magnitudeB: real)
    ensures magnitudeA == 0.0 || magnitudeB == 0.0 ==> Guarded(dotProduct, magnitudeA, magnitudeB) == 0.0
    ensures magnitudeA != 0.0 && magnitudeB != 0.0 ==>
              magnitudeA * magnitudeB != 0.0 && Guarded(dotProduct, magnitudeA, magnitudeB) == dotProduct / (magnitudeA * magnitudeB)
  {
  }

  // ---------------------------------------------------------------------
  // Lemmas
  // ---------------------------------------------------------------------

  lemma SqrtZero(sqrt: real -> real, x: real)
    requires SqrtLike(sqrt) && 0.0 <= x
    ensures sqrt(x) == 0.0 <==> x == 0.0
  {
  }

  /** The merged key order lists every term of either vector exactly once. */
  lemma AlignedTermsCover(vectorA: SparseVector, vectorB: SparseVector)
    ensures Distinct(AlignedTerms(vectorA, vectorB))
    ensures Elems(AlignedTerms(vectorA, vectorB)) == TermSet(vectorA) + TermSet(vectorB)
  {
    assert Elems(Terms(vectorA) + Terms(vectorB)) == Elems(Terms(vectorA)) + Elems(Terms(vectorB));
  }

  /** Removing one key from a sequence. */
  function Without(s: seq<string>, x: string): (r: seq<string>)
    ensures Elems(r) == Elems(s) - {x}
    ensures Distinct(s) ==> Distinct(r)
    ensures x !in s ==> r == s
    ensures |r| <= |s|
  {
    if |s| == 0 then []
    else
      var p := s[..|s| - 1];
      assert s == p + [s[|s| - 1]];
      var w := Without(p, x);
      if s[|s| - 1] == x then w
      else
        assert (w + [s[|s| - 1]])[..|w|] == w;
        assert Elems(w + [s[|s| - 1]]) == Elems(w) + {s[|s| - 1]};
        w + [s[|s| - 1]]
  }

  lemma {:induction false} SumOverWithout(keys: seq<string>, x: string, f: string -> real)
    requires Distinct(keys) && x in keys
    ensures SumOver(keys, f) == SumOver(Without(keys, x), f) + f(x)
  {
    var n := |keys|;
    var p := keys[..n - 1];
    assert keys == p + [keys[n - 1]];
    if keys[n - 1] == x {
      assert x !in p;
    } else {
      SumOverWithout(p, x, f);
      var w := Without(p, x);
      assert Without(keys, x) == w + [keys[n - 1]];
      assert (w + [keys[n - 1]])[..|w|] == w;
    }
  }

  /** A sum over distinct keys depends only on which keys take part, and
      keys where `f` is 0 can be dropped: in particular it does not depend
      on the order of the keys. */
  lemma {:induction false} SumOverSubset(big: seq<string>, small: seq<string>, f: string -> real)
    requires Distinct(big) && Distinct(small) && Elems(small) <= Elems(big)
    requires forall t :: t in big && t !in small ==> f(t) == 0.0
    ensures SumOver(big, f) == SumOver(small, f)
  {
    if |big| == 0 {
      ElemsCard(small);
    } else {
      var n := |big|;
      var p := big[..n - 1];
      var x := big[n - 1];
      assert big == p + [x];
      assert Elems(big) == Elems(p) + {x};
      assert x !in p;
      if x in small {
        var s := Without(small, x);
        SumOverWithout(small, x, f);
        assert Elems(s) <= Elems(p);
        forall t | t in p && t !in s ensures f(t) == 0.0 {
          assert t != x && t !in Elems(s);
          assert t !in Elems(small);
        }
        SumOverSubset(p, s, f);
      } else {
        SumOverSubset(p, small, f);
      }
    }
  }

  lemma {:induction false} SumOverPointwise(keys: seq<string>, f: string -> real, g: string -> real)
    requires forall t :: t in keys ==> f(t) == g(t)
    ensures SumOver(keys, f) == SumOver(keys, g)
  {
    if |keys| > 0 {
      SumOverPointwise(keys[..|keys| - 1], f, g);
    }
  }

  /** Terms a vector does not list contribute nothing to its products. */
  lemma ProductOutside(va: SparseVector, vb: SparseVector, keys: seq<string>)
    ensures forall t :: t in keys && t !in DistinctTerms(va) ==> ProductOf(va, vb)(t) == 0.0
  {
    forall t | t in keys && t !in DistinctTerms(va) ensures ProductOf(va, vb)(t) == 0.0 {
      assert t !in Elems(Terms(va));
    }
  }

  lemma {:induction false} ColumnDot(keys: seq<string>, va: SparseVector, vb: SparseVector)
    ensures DotProduct(Column(keys, va), Column(keys, vb)) == SumOver(keys, ProductOf(va, vb))
  {
    if |keys| > 0 {
      var n := |keys|;
      var ca, cb := Column(keys, va), Column(keys, vb);
      ColumnDot(keys[..n - 1], va, vb);
      assert ca[..n - 1] == Column(keys[..n - 1], va);
      assert cb[..n - 1] == Column(keys[..n - 1], vb);
    }
  }

  lemma {:induction false} SquaresAreSelfDot(xs: seq<real>)
    ensures SumOfSquares(xs) == DotProduct(xs, xs)
  {
    if |xs| > 0 {
      SquaresAreSelfDot(xs[..|xs| - 1]);
    }
  }

  lemma {:induction false} SumOfSquareWeightsNonNegative(keys: seq<string>, v: SparseVector)
    ensures SumOver(keys, ProductOf(v, v)) >= 0.0
  {
    if |keys| > 0 {
      SumOfSquareWeightsNonNegative(keys[..|keys| - 1], v);
      var w := Weight(v, keys[|keys| - 1]);
      assert ProductOf(v, v)(keys[|keys| - 1]) == w * w;
    }
  }

  lemma SquaredMagnitudeNonNegative(v: SparseVector)
    ensures SquaredMagnitude(v) >= 0.0
  {
    SumOfSquareWeightsNonNegative(DistinctTerms(v), v);
  }

  /** Line 35 with lines 7 and 16: along any enumeration of the merged map,
      the dot product is the sum of weight products over `vectorA`'s own
      terms; a term of `vectorB` alone meets a padded 0 and adds nothing. */
  lemma DotOverOwnTerms(order: seq<string>, vectorA: SparseVector, vectorB: SparseVector)
    requires Distinct(order) && Elems(order) == TermSet(vectorA) + TermSet(vectorB)
    ensures DotProduct(Column(order, vectorA), Column(order, vectorB)) == Overlap(vectorA, vectorB)
  {
    ColumnDot(order, vectorA, vectorB);
    ProductOutside(vectorA, vectorB, order);
    SumOverSubset(order, DistinctTerms(vectorA), ProductOf(vectorA, vectorB));
  }

  /** Lines 38-39: along any enumeration of the merged map, a vector's sum of
      squares is taken over its own terms; the zeros padded in from the other
      vector add nothing. */
  lemma MagnitudeOverOwnTerms(order: seq<string>, v: SparseVector, other: SparseVector)
    requires Distinct(order) && Elems(order) == TermSet(v) + TermSet(other)
    ensures SumOfSquares(Column(order, v)) == SquaredMagnitude(v)
  {
    SquaresAreSelfDot(Column(order, v));
    ColumnDot(order, v, v);
    ProductOutside(v, v, order);
    SumOverSubset(order, DistinctTerms(v), ProductOf(v, v));
  }

  /** The dot product only involves the terms both vectors share: summing
      over any enumeration of the common terms gives the same value. */
  lemma DotOverCommonTerms(vectorA: SparseVector, vectorB: SparseVector, common: seq<string>)
    requires Distinct(common) && Elems(common) == TermSet(vectorA) * TermSet(vectorB)
    ensures Overlap(vectorA, vectorB) == SumOver(common, ProductOf(vectorA, vectorB))
  {
    var f := ProductOf(vectorA, vectorB);
    forall t | t in DistinctTerms(vectorA) && t !in common ensures f(t) == 0.0 {
      assert t in Elems(DistinctTerms(vectorA));
      assert t !in Elems(common);
      assert t !in Elems(Terms(vectorB));
    }
    SumOverSubset(DistinctTerms(vectorA), common, f);
  }

  /** Line 41 along any enumeration of the merged map, in terms of the
      vectors' own terms. */
  lemma CosineForValue(order: seq<string>, vectorA: SparseVector, vectorB: SparseVector, sqrt: real -> real)
    requires SqrtLike(sqrt)
    requires Distinct(order) && Elems(order) == TermSet(vectorA) + TermSet(vectorB)
    ensures CosineFor(order, vectorA, vectorB, sqrt) ==
              Guarded(Overlap(vectorA, vectorB), Magnitude(vectorA, sqrt), Magnitude(vectorB, sqrt))
  {
    DotOverOwnTerms(order, vectorA, vectorB);
    MagnitudeOverOwnTerms(order, vectorA, vectorB);
    MagnitudeOverOwnTerms(order, vectorB, vectorA);
    var ca, cb := Column(order, vectorA), Column(order, vectorB);
    var ma, mb := sqrt(SumOfSquares(ca)), sqrt(SumOfSquares(cb));
    assert ma == Magnitude(vectorA, sqrt) && mb == Magnitude(vectorB, sqrt);
  }

  /** JavaScript enumerates integer-like keys of an object before the others,
      so the real key order may differ from insertion order. The result does
      not depend on it: for every enumeration of the merged terms the cosine
      is the same. */
  lemma CosineAnyOrder(order: seq<string>, vectorA: SparseVector, vectorB: SparseVector, sqrt: real -> real)
    requires SqrtLike(sqrt)
    requires Distinct(order) && Elems(order) == TermSet(vectorA) + TermSet(vectorB)
    ensures CosineFor(order, vectorA, vectorB, sqrt) == CosineSimilarity(vectorA, vectorB, sqrt)
  {
    CosineForValue(order, vectorA, vectorB, sqrt);
  }

  /** The products over common terms do not depend on which vector comes
      first. */
  lemma OverlapSymmetric(vectorA: SparseVector, vectorB: SparseVector)
    ensures Overlap(vectorA, vectorB) == Overlap(vectorB, vectorA)
  {
    var union := AlignedTerms(vectorA, vectorB);
    AlignedTermsCover(vectorA, vectorB);
    var f, g := ProductOf(vectorA, vectorB), ProductOf(vectorB, vectorA);
    ProductOutside(vectorA, vectorB, union);
    SumOverSubset(union, DistinctTerms(vectorA), f);
    forall t | t in union && t !in DistinctTerms(vectorB) ensures f(t) == 0.0 {
      assert t !in Elems(Terms(vectorB));
    }
    SumOverSubset(union, DistinctTerms(vectorB), f);
    SumOverPointwise(DistinctTerms(vectorB), f, g);
  }

  /** Swapping the arguments changes the key order of the merged map but not
      the result. */
  lemma CosineSymmetric(vectorA: SparseVector, vectorB: SparseVector, sqrt: real -> real)
    requires SqrtLike(sqrt)
    ensures CosineSimilarity(vectorA, vectorB, sqrt) == CosineSimilarity(vectorB, vectorA, sqrt)
  {
    OverlapSymmetric(vectorA, vectorB);
    var ma, mb := SquaredMagnitude(vectorA), SquaredMagnitude(vectorB);
    assert sqrt(ma) * sqrt(mb) == sqrt(mb) * sqrt(ma);
  }

  /** A vector compared with itself scores 1, unless its squared magnitude
      is 0, when the guard makes it 0. */
  lemma CosineSelf(v: SparseVector, sqrt: real -> real)
    requires IsSqrt(sqrt)
    ensures CosineSimilarity(v, v, sqrt) == if SquaredMagnitude(v) == 0.0 then 0.0 else 1.0
  {
    SquaredMagnitudeNonNegative(v);
    var m := SquaredMagnitude(v);
    assert Overlap(v, v) == m;
    if m != 0.0 {
      var s := Magnitude(v, sqrt);
      assert s * s == m;
      assert CosineSimilarity(v, v, sqrt) == Guarded(m, s, s);
      assert Guarded(m, s, s) == m / m;
      assert m / m == 1.0;
    }
  }

  /** TF-IDF weights are never negative. */
  predicate NonNegativeWeights(v: SparseVector)
  {
    forall k :: 0 <= k < |v| ==> v[k].tfidf >= 0.0
  }

  lemma {:induction false} WeightNonNegative(v: SparseVector, t: string)
    requires NonNegativeWeights(v)
    ensures Weight(v, t) >= 0.0
  {
    if |v| > 0 && v[|v| - 1].term != t {
      WeightNonNegative(v[..|v| - 1], t);
    }
  }

  lemma {:induction false} ProductsNonNegative(keys: seq<string>, va: SparseVector, vb: SparseVector)
    requires NonNegativeWeights(va) && NonNegativeWeights(vb)
    ensures SumOver(keys, ProductOf(va, vb)) >= 0.0
  {
    if |keys| > 0 {
      var t := keys[|keys| - 1];
      ProductsNonNegative(keys[..|keys| - 1], va, vb);
      WeightNonNegative(va, t);
      WeightNonNegative(vb, t);
      TimesNonNegative(Weight(va, t), Weight(vb, t));
    }
  }

  lemma TimesNonNegative(x: real, y: real)
    requires x >= 0.0 && y >= 0.0
    ensures Times(x, y) >= 0.0
  {
  }

  lemma QuotientNonNegative(dotProduct: real, magnitudeA: real, magnitudeB: real)
    requires dotProduct >= 0.0 && magnitudeA >= 0.0 && magnitudeB >= 0.0
    ensures Guarded(dotProduct, magnitudeA, magnitudeB) >= 0.0
  {
    if magnitudeA != 0.0 && magnitudeB != 0.0 {
      TimesNonNegative(magnitudeA, magnitudeB);
      assert magnitudeA * magnitudeB > 0.0;
    }
  }

  /** With non-negative weights, as TF-IDF weights are, the cosine is never
      negative. */
  lemma CosineNonNegative(vectorA: SparseVector, vectorB: SparseVector, sqrt: real -> real)
    requires SqrtLike(sqrt)
    requires NonNegativeWeights(vectorA) && NonNegativeWeights(vectorB)
    ensures CosineSimilarity(vectorA, vectorB, sqrt) >= 0.0
  {
    ProductsNonNegative(DistinctTerms(vectorA), vectorA, vectorB);
    AlignedTermsCover(vectorA, vectorB);
    CosineForValue(AlignedTerms(vectorA, vectorB), vectorA, vectorB, sqrt);
    QuotientNonNegative(Overlap(vectorA, vectorB), Magnitude(vectorA, sqrt), Magnitude(vectorB, sqrt));
  }
}
