/** Facts about sequences shared by the similarity services. */
module Seqs {

  /** The elements of a sequence, duplicates collapsed
      (what `new Set([...s])` holds). */
  function Elems<T>(s: seq<T>): set<T>
  {
    set x | x in s
  }

  /** No element occurs twice: the last element is not among the earlier
      ones, and so on down the sequence. */
  predicate Distinct<T(==)>(s: seq<T>)
  {
    |s| == 0 || (s[|s| - 1] !in s[..|s| - 1] && Distinct(s[..|s| - 1]))
  }

  /** Collapsing duplicates never adds elements, and removes none exactly
      when there are no duplicates. */
  lemma {:induction false} ElemsCard<T>(s: seq<T>)
    ensures |Elems(s)| <= |s|
    ensures Distinct(s) <==> |Elems(s)| == |s|
    ensures s != [] ==> s[0] in Elems(s) && |Elems(s)| > 0
  {
    if s != [] {
      var p := s[..|s| - 1];
      var x := s[|s| - 1];
      ElemsCard(p);
      assert s == p + [x];
      assert Elems(s) == Elems(p) + {x};
      if x in p {
        assert Elems(s) == Elems(p);
      } else {
        assert |Elems(s)| == |Elems(p)| + 1;
      }
    }
  }
}
