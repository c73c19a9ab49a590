/** Sparse TF-IDF vectors as the services exchange them: a list of
    `{ term, tfidf }` records, one per term the library listed. */
module Vectors {
  import opened Seqs

  datatype TermWeight = TermWeight(term: string, tfidf: real)

  type SparseVector = seq<TermWeight>

  /** The terms of a vector, in list order, repeats kept. */
  function Terms(v: SparseVector): (r: seq<string>)
    ensures |r| == |v|
  {
    seq(|v|, k requires 0 <= k < |v| => v[k].term)
  }

  /** The distinct terms of a vector. */
  function TermSet(v: SparseVector): set<string>
  {
    Elems(Terms(v))
  }
}
