// The TF-IDF wrapper of server/services/tfidfVectorizer.js. One TfIdf store
// lives at module level (line 4) and every call appends its documents to it
// (line 11); the vectors are then read back from the store by index. The
// term lists themselves come from the `natural` library: `listTerms` is a
// function of the whole store and an index, and nothing more is assumed of it.

module TfIdfVectorizer {
  import opened Results
  import opened Vectors

  /** One entry of the library's term list for a document. */
  datatype ListedTerm = ListedTerm(term: string, tf: real, idf: real, tfidf: real)

  /** Lines 18-22: keep only `term` and `tfidf`, one entry per listed term,
      in the library's order. */
  function Project(terms: seq<ListedTerm>): (r: SparseVector)
    ensures |r| == |terms|
    ensures forall k :: 0 <= k < |terms| ==> r[k] == TermWeight(terms[k].term, terms[k].tfidf)
  {
    if |terms| == 0 then []
    else
      var last := terms[|terms| - 1];
      Project(terms[..|terms| - 1]) + [TermWeight(last.term, last.tfidf)]
  }

  /** The two errors the wrapper throws: line 8 and line 15. */
  datatype VectorizeError = NoDocuments | IndexOutOfBounds(index: nat)

  /** The library's TfIdf object: the documents added so far, and the term
      list it computes for the document at an index of that store. */
  class TfIdf<Doc> {
    var documents: seq<Doc>
    const listTerms: (seq<Doc>, nat) -> seq<ListedTerm>

    /** Line 4: an empty store. */
    constructor (listTerms: (seq<Doc>, nat) -> seq<ListedTerm>)
      ensures documents == [] && this.listTerms == listTerms
    {
      documents := [];
      this.listTerms := listTerms;
    }

    /** `addDocument`: the store grows by one document at the end. */
    method AddDocument(d: Doc)
      modifies this
      ensures documents == old(documents) + [d]
    {
      documents := documents + [d];
    }
  }

  /** The vectors of `n` consecutive store slots from `start` on. */
  function VectorsAt<Doc>(store: seq<Doc>, listTerms: (seq<Doc>, nat) -> seq<ListedTerm>, start: nat, n: nat): (r: seq<SparseVector>)
    ensures |r| == n
    ensures forall i :: 0 <= i < n ==> r[i] == Project(listTerms(store, start + i))
  {
    if n == 0 then [] else VectorsAt(store, listTerms, start, n - 1) + [Project(listTerms(store, start + n - 1))]
  }

  /** Line 11: add every document, in order. */
  method AddDocuments<Doc>(tfidf: TfIdf<Doc>, documents: seq<Doc>)
    modifies tfidf
    ensures tfidf.documents == old(tfidf.documents) + documents
  {
    var k := 0;
    while k < |documents|
      invariant 0 <= k <= |documents|
      invariant tfidf.documents == old(tfidf.documents) + documents[..k]
    {
      tfidf.AddDocument(documents[k]);
      assert documents[..k + 1] == documents[..k] + [documents[k]];
      k := k + 1;
    }
    assert documents[..k] == documents;
  }

  /** Lines 6-24: `vectorizeText`, reading vector i from store index i.
      `None` stands for a missing argument. */
  method VectorizeText<Doc>(tfidf: TfIdf<Doc>, documents: Option<seq<Doc>>) returns (r: Result<seq<SparseVector>, VectorizeError>)
    modifies tfidf
    ensures documents.None? || |documents.value| == 0 ==>
              r == Failure(NoDocuments) && tfidf.documents == old(tfidf.documents)
    ensures documents.Some? && |documents.value| > 0 ==>
              && tfidf.documents == old(tfidf.documents) + documents.value
              && r == Success(VectorsAt(tfidf.documents, tfidf.listTerms, 0, |documents.value|))
  {
    if documents.None? || |documents.value| == 0 {
      return Failure(NoDocuments);
    }
    var docs := documents.value;
    AddDocuments(tfidf, docs);
    var vectors: seq<SparseVector> := [];
    var i: nat := 0;
    while i < |docs|
      invariant 0 <= i <= |docs|
      invariant vectors == VectorsAt(tfidf.documents, tfidf.listTerms, 0, i)
    {
      if i >= |tfidf.documents| {
        // never taken: the store already holds every document of this call
        assert false;
        return Failure(IndexOutOfBounds(i));
      }
      vectors := vectors + [Project(tfidf.listTerms(tfidf.documents, i))];
      i := i + 1;
    }
    return Success(vectors);
  }

  /** The vectors of the caller's own documents: after the append they sit at
      the end of the store, so vector i is read from index (old size + i). */
  method VectorizeOwnDocuments<Doc>(tfidf: TfIdf<Doc>, documents: Option<seq<Doc>>) returns (r: Result<seq<SparseVector>, VectorizeError>)
    modifies tfidf
    ensures documents.None? || |documents.value| == 0 ==>
              r == Failure(NoDocuments) && tfidf.documents == old(tfidf.documents)
    ensures documents.Some? && |documents.value| > 0 ==>
              && tfidf.documents == old(tfidf.documents) + documents.value
              && r == Success(VectorsAt(tfidf.documents, tfidf.listTerms, |old(tfidf.documents)|, |documents.value|))
  {
    if documents.None? || |documents.value| == 0 {
      return Failure(NoDocuments);
    }
    var docs := documents.value;
    var start: nat := |tfidf.documents|;
    AddDocuments(tfidf, docs);
    var vectors: seq<SparseVector> := [];
    var i: nat := 0;
    while i < |docs|
      invariant 0 <= i <= |docs|
      invariant vectors == VectorsAt(tfidf.documents, tfidf.listTerms, start, i)
    {
      var index: nat := start + i;
      if index >= |tfidf.documents| {
        // never taken: the store already holds every document of this call
        assert false;
        return Failure(IndexOutOfBounds(index));
      }
      vectors := vectors + [Project(tfidf.listTerms(tfidf.documents, index))];
      i := i + 1;
    }
    return Success(vectors);
  }

  /** A term list computed from the document in a slot alone. */
  function PerDocument<Doc>(describe: Doc -> seq<ListedTerm>): (seq<Doc>, nat) -> seq<ListedTerm>
  {
    (store: seq<Doc>, i: nat) => if i < |store| then describe(store[i]) else []
  }

  /** After a call appends `documents` to a store holding `before`, the
      vector i read from the caller's own slot describes the caller's
      document i, whatever the store held before. */
  lemma OwnSlotsDescribeOwnDocuments<Doc>(before: seq<Doc>, documents: seq<Doc>, describe: Doc -> seq<ListedTerm>)
    ensures forall i :: 0 <= i < |documents| ==>
              VectorsAt(before + documents, PerDocument(describe), |before|, |documents|)[i] == Project(describe(documents[i]))
  {
    var store := before + documents;
    forall i | 0 <= i < |documents|
      ensures VectorsAt(store, PerDocument(describe), |before|, |documents|)[i] == Project(describe(documents[i]))
    {
      assert store[|before| + i] == documents[i];
      assert PerDocument(describe)(store, |before| + i) == describe(documents[i]);
    }
  }

  /** Read from index i, as written, vector i describes the document an
      earlier call left in slot i, wherever i < |before|. */
  lemma IndexSlotsDescribeEarlierDocuments<Doc>(before: seq<Doc>, documents: seq<Doc>, describe: Doc -> seq<ListedTerm>)
    ensures forall i :: 0 <= i < |documents| && i < |before| ==>
              VectorsAt(before + documents, PerDocument(describe), 0, |documents|)[i] == Project(describe(before[i]))
  {
    var store := before + documents;
    forall i | 0 <= i < |documents| && i < |before|
      ensures VectorsAt(store, PerDocument(describe), 0, |documents|)[i] == Project(describe(before[i]))
    {
      assert store[i] == before[i];
      assert PerDocument(describe)(store, i) == describe(before[i]);
    }
  }

  /** A term list that names the document it was computed for. */
  function Echo(store: seq<string>, i: nat): seq<ListedTerm>
  {
    if i < |store| then [ListedTerm(store[i], 1.0, 1.0, 1.0)] else []
  }

  /** A second call: the store already holds "first" from an earlier call and
      now receives "second". Read as written, the only vector returned
      describes "first"; read from the caller's own slot it describes "second". */
  lemma SecondCallReadsEarlierDocument()
    ensures VectorsAt(["first"] + ["second"], Echo, 0, 1) == [[TermWeight("first", 1.0)]]
    ensures VectorsAt(["first"] + ["second"], Echo, |["first"]|, 1) == [[TermWeight("second", 1.0)]]
  {
    assert ["first"] + ["second"] == ["first", "second"];
    assert Project([ListedTerm("first", 1.0, 1.0, 1.0)]) == [TermWeight("first", 1.0)];
    assert Project([ListedTerm("second", 1.0, 1.0, 1.0)]) == [TermWeight("second", 1.0)];
  }
}
