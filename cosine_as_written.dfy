// alignVectors as written: the membership test on line 13 of
// server/services/cosineSimilarity.js reads `termMap[item.term]` on a plain
// object, so it also finds the members every object inherits from
// Object.prototype. A term of vectorB with such a name that vectorA lacks is
// taken for an existing entry and never gets a slot of its own.
//
// The corrected alignment (own keys only) is Cosine.AlignVectors, which the
// rest of the model uses; this module exhibits the difference.

module CosineAsWritten {
  import opened Seqs
  import opened Vectors
  import opened Cosine

  /** The names a lookup on a fresh object literal finds without any own
      property: the members of Object.prototype. */
  const ObjectPrototypeProperties: set<string> :=
    {"constructor", "__proto__", "hasOwnProperty", "isPrototypeOf", "propertyIsEnumerable",
     "toLocaleString", "toString", "valueOf", "__defineGetter__", "__defineSetter__",
     "__lookupGetter__", "__lookupSetter__"}

  /** Whether the second loop handles entries of term `t` as the corrected
      alignment does: `t` is a term of vectorA, or no inherited member shadows it. */
  predicate HandledBy(vectorA: SparseVector, inherited: set<string>, t: string)
  {
    t in TermSet(vectorA) || t !in inherited
  }

  /** The entries of vectorB the second loop, as written, actually records. */
  function Visible(vectorA: SparseVector, inherited: set<string>, vectorB: SparseVector): (r: SparseVector)
    ensures |r| <= |vectorB|
    ensures forall k :: 0 <= k < |r| ==> HandledBy(vectorA, inherited, r[k].term)
  {
    if |vectorB| == 0 then []
    else
      var p := Visible(vectorA, inherited, vectorB[..|vectorB| - 1]);
      var x := vectorB[|vectorB| - 1];
      if HandledBy(vectorA, inherited, x.term) then p + [x] else p
  }

  /** Only the dropped entries differ: a handled term keeps its weight. */
  lemma {:induction false} VisibleWeight(vectorA: SparseVector, inherited: set<string>, vectorB: SparseVector, t: string)
    requires HandledBy(vectorA, inherited, t)
    ensures Weight(Visible(vectorA, inherited, vectorB), t) == Weight(vectorB, t)
  {
    if |vectorB| > 0 {
      var p := vectorB[..|vectorB| - 1];
      var x := vectorB[|vectorB| - 1];
      VisibleWeight(vectorA, inherited, p, t);
      WeightExtend(vectorB, |vectorB| - 1, t);
      assert vectorB[..|vectorB|] == vectorB;
      if HandledBy(vectorA, inherited, x.term) {
        var vis := Visible(vectorA, inherited, p);
        assert (vis + [x])[..|vis|] == vis;
        WeightExtend(vis + [x], |vis|, t);
      }
    }
  }

  /** With no inherited names the as-written loop is the corrected one. */
  lemma {:induction false} VisibleWithoutInherited(vectorA: SparseVector, vectorB: SparseVector)
    ensures Visible(vectorA, {}, vectorB) == vectorB
  {
    if |vectorB| > 0 {
      VisibleWithoutInherited(vectorA, vectorB[..|vectorB| - 1]);
      assert vectorB[..|vectorB| - 1] + [vectorB[|vectorB| - 1]] == vectorB;
    }
  }

  /** Reading one more entry of vectorB. */
  lemma VisibleStep(vectorA: SparseVector, inherited: set<string>, vectorB: SparseVector, j: nat)
    requires j < |vectorB|
    ensures Visible(vectorA, inherited, vectorB[..j + 1])
         == if HandledBy(vectorA, inherited, vectorB[j].term) then Visible(vectorA, inherited, vectorB[..j]) + [vectorB[j]]
            else Visible(vectorA, inherited, vectorB[..j])
  {
    assert vectorB[..j + 1][..j] == vectorB[..j];
  }

  /** Every key of the term map is handled: vectorA's terms, and the terms
      already recorded from vectorB. */
  lemma KeysHandled(keys: seq<string>, termMap: map<string, Slot>, va: SparseVector, inherited: set<string>, vis: SparseVector, t: string)
    requires MapReflects(keys, termMap, va, vis)
    requires forall k :: 0 <= k < |vis| ==> HandledBy(va, inherited, vis[k].term)
    requires t in termMap
    ensures HandledBy(va, inherited, t)
  {
    AlignedTermsCover(va, vis);
    if t !in TermSet(va) {
      assert t in Terms(vis);
      var k :| 0 <= k < |vis| && Terms(vis)[k] == t;
      assert HandledBy(va, inherited, vis[k].term);
    }
  }

  /** Lines 12-18 as written, one entry of vectorB. */
  lemma InsertBAsWritten(va: SparseVector, inherited: set<string>, vb: SparseVector, j: nat, keys: seq<string>, termMap: map<string, Slot>)
    requires j < |vb| && MapReflects(keys, termMap, va, Visible(va, inherited, vb[..j]))
    ensures vb[j].term in termMap ==>
              MapReflects(keys, termMap[vb[j].term := termMap[vb[j].term].(b := vb[j].tfidf)], va, Visible(va, inherited, vb[..j + 1]))
    ensures vb[j].term !in termMap && vb[j].term in inherited ==>
              MapReflects(keys, termMap, va, Visible(va, inherited, vb[..j + 1]))
    ensures vb[j].term !in termMap && vb[j].term !in inherited ==>
              MapReflects(keys + [vb[j].term], termMap[vb[j].term := Slot(0.0, vb[j].tfidf)], va, Visible(va, inherited, vb[..j + 1]))
  {
    var x := vb[j];
    var vis := Visible(va, inherited, vb[..j]);
    VisibleStep(va, inherited, vb, j);
    if x.term in termMap {
      KeysHandled(keys, termMap, va, inherited, vis, x.term);
      InsertNext(va, vis, x, keys, termMap);
    } else if x.term in inherited {
      AlignedTermsCover(va, vis);
      assert !HandledBy(va, inherited, x.term);
    } else {
      InsertNext(va, vis, x, keys, termMap);
    }
  }

  /** alignVectors as written, for a term map whose prototype chain supplies
      a fixed set of names `inherited` (ObjectPrototypeProperties for the
      object literal on line 3): the second loop's test also succeeds for an
      inherited name, and the update then lands on the inherited member
      instead of on a slot of the term map. The set stays fixed during the
      call, so the model does not follow a write that adds a name to the
      prototype itself (see the README). */
  method AlignVectorsAsWritten(vectorA: SparseVector, vectorB: SparseVector, inherited: set<string>) returns (alignedA: seq<real>, alignedB: seq<real>)
    ensures |alignedA| == |alignedB| == |TermSet(vectorA) + TermSet(Visible(vectorA, inherited, vectorB))|
    ensures alignedA == Column(AlignedTerms(vectorA, Visible(vectorA, inherited, vectorB)), vectorA)
    ensures alignedB == Column(AlignedTerms(vectorA, Visible(vectorA, inherited, vectorB)), vectorB)
  {
    var keys, termMap := InsertAll(vectorA);
    assert Visible(vectorA, inherited, vectorB[..0]) == [];
    var j := 0;
    while j < |vectorB|
      invariant 0 <= j <= |vectorB|
      invariant MapReflects(keys, termMap, vectorA, Visible(vectorA, inherited, vectorB[..j]))
    {
      var item := vectorB[j];
      if item.term in termMap {
        InsertBAsWritten(vectorA, inherited, vectorB, j, keys, termMap);
        termMap := termMap[item.term := termMap[item.term].(b := item.tfidf)];
      } else if item.term in inherited {
        InsertBAsWritten(vectorA, inherited, vectorB, j, keys, termMap);
        // the assignment writes to the inherited member; the term map is unchanged
      } else {
        InsertBAsWritten(vectorA, inherited, vectorB, j, keys, termMap);
        keys := keys + [item.term];
        termMap := termMap[item.term := Slot(0.0, item.tfidf)];
      }
      j := j + 1;
    }
    assert vectorB[..j] == vectorB;
    var vis := Visible(vectorA, inherited, vectorB);
    alignedA := seq(|keys|, k requires 0 <= k < |keys| => termMap[keys[k]].a);
    alignedB := seq(|keys|, k requires 0 <= k < |keys| => termMap[keys[k]].b);
    ReadColumns(keys, termMap, vectorA, vis);
    ColumnOfVisible(vectorA, inherited, vectorB);
  }

  /** On the keys the as-written alignment keeps, vectorB's column is read
      from vectorB itself. */
  lemma ColumnOfVisible(vectorA: SparseVector, inherited: set<string>, vectorB: SparseVector)
    ensures Column(AlignedTerms(vectorA, Visible(vectorA, inherited, vectorB)), Visible(vectorA, inherited, vectorB))
         == Column(AlignedTerms(vectorA, Visible(vectorA, inherited, vectorB)), vectorB)
  {
    var vis := Visible(vectorA, inherited, vectorB);
    var keys := AlignedTerms(vectorA, vis);
    AlignedTermsCover(vectorA, vis);
    forall k | 0 <= k < |keys|
      ensures Weight(vis, keys[k]) == Weight(vectorB, keys[k])
    {
      var t := keys[k];
      assert t in Elems(keys);
      VisibleWeight(vectorA, inherited, vectorB, t);
    }
  }

  /** The two vectors of the example below. */
  const ExampleA: SparseVector := [TermWeight("x", 1.0)]
  const ExampleB: SparseVector := [TermWeight("x", 1.0), TermWeight("constructor", 1.0)]

  lemma ExampleVisible()
    ensures Visible(ExampleA, ObjectPrototypeProperties, ExampleB) == ExampleA
  {
    assert Terms(ExampleA) == ["x"];
    assert "constructor" in ObjectPrototypeProperties;
    assert ExampleB[..1] == ExampleA && ExampleA[..0] == [];
    assert Visible(ExampleA, ObjectPrototypeProperties, ExampleA) == ExampleA;
  }

  lemma ExampleTerms()
    ensures AlignedTerms(ExampleA, ExampleA) == ["x"]
    ensures AlignedTerms(ExampleA, ExampleB) == ["x", "constructor"]
  {
    assert Terms(ExampleA) == ["x"];
    assert Terms(ExampleB) == ["x", "constructor"];
    assert ["x", "x"][..1] == ["x"];
    assert ["x", "x", "constructor"][..2] == ["x", "x"];
    assert ["x", "constructor"][..1] == ["x"];
    assert Dedup(["x", "x"]) == ["x"];
    assert Terms(ExampleA) + Terms(ExampleA) == ["x", "x"];
    assert Terms(ExampleA) + Terms(ExampleB) == ["x", "x", "constructor"];
  }

  lemma ExampleColumns()
    ensures Column(["x"], ExampleA) == [1.0] && Column(["x"], ExampleB) == [1.0]
    ensures Column(["x", "constructor"], ExampleA) == [1.0, 0.0]
    ensures Column(["x", "constructor"], ExampleB) == [1.0, 1.0]
  {
    assert Terms(ExampleA) == ["x"];
    assert Terms(ExampleB) == ["x", "constructor"];
    assert ExampleB[..1] == ExampleA && ExampleA[..0] == [];
    assert Weight(ExampleA, "x") == 1.0 && Weight(ExampleB, "x") == 1.0;
    assert Weight(ExampleB, "constructor") == 1.0;
  }

  lemma ExampleFolds()
    ensures DotProduct([1.0], [1.0]) == 1.0 && SumOfSquares([1.0]) == 1.0
    ensures DotProduct([1.0, 0.0], [1.0, 1.0]) == 1.0
    ensures SumOfSquares([1.0, 0.0]) == 1.0 && SumOfSquares([1.0, 1.0]) == 2.0
  {
    assert [1.0, 0.0][..1] == [1.0] && [1.0, 1.0][..1] == [1.0];
  }

  /** A non-negative square root of 1 is 1. */
  lemma UnitRoot(s: real)
    requires 0.0 <= s && s * s == 1.0
    ensures s == 1.0
  {
    if s < 1.0 {
      ScaleMonotone(s, s, 1.0);
      assert false;
    } else if s > 1.0 {
      ScaleMonotone(s, 1.0, s);
      assert false;
    }
  }

  lemma ScaleMonotone(a: real, b: real, c: real)
    requires 0.0 <= a && b <= c
    ensures a * b <= a * c
  {
  }

  lemma ExampleCosines(sqrt: real -> real)
    requires SqrtLike(sqrt)
    ensures CosineFor(["x"], ExampleA, ExampleB, sqrt) == Guarded(1.0, sqrt(1.0), sqrt(1.0))
    ensures CosineSimilarity(ExampleA, ExampleB, sqrt) == Guarded(1.0, sqrt(1.0), sqrt(2.0))
  {
    ExampleTerms();
    ExampleColumns();
    ExampleFolds();
  }

  /** The discrepancy on one input: vectorA = [x:1], vectorB = [x:1,
      constructor:1]. As written, "constructor" has no slot, both aligned
      vectors are [1] and the cosine is 1; the corrected alignment gives
      [1, 0] and [1, 1] and a cosine of 1/sqrt(2). */
  lemma InheritedNameDropped(sqrt: real -> real)
    requires IsSqrt(sqrt)
    ensures AlignedTerms(ExampleA, Visible(ExampleA, ObjectPrototypeProperties, ExampleB)) == ["x"]
    ensures AlignedTerms(ExampleA, ExampleB) == ["x", "constructor"]
    ensures CosineFor(AlignedTerms(ExampleA, Visible(ExampleA, ObjectPrototypeProperties, ExampleB)), ExampleA, ExampleB, sqrt) == 1.0
    ensures CosineSimilarity(ExampleA, ExampleB, sqrt) != 1.0
  {
    ExampleVisible();
    ExampleTerms();
    ExampleCosines(sqrt);
    ExampleRoots(sqrt);
    ExampleQuotients(sqrt(1.0), sqrt(2.0));
  }

  lemma ExampleRoots(sqrt: real -> real)
    requires IsSqrt(sqrt)
    ensures sqrt(1.0) == 1.0 && sqrt(2.0) != 1.0 && sqrt(2.0) != 0.0
  {
    UnitRoot(sqrt(1.0));
    var s2 := sqrt(2.0);
    assert s2 * s2 == 2.0;
  }

  lemma ExampleQuotients(s1: real, s2: real)
    requires s1 == 1.0 && s2 != 1.0 && s2 != 0.0
    ensures Guarded(1.0, s1, s1) == 1.0 && Guarded(1.0, s1, s2) != 1.0
  {
    assert Guarded(1.0, s1, s2) == 1.0 / s2;
  }
}
