// Feature extraction of server/services/featureExtractor.js: lower-case the
// text, tokenize it, stem every token, then remove six stop words with
// lodash's `difference`, which keeps the order and the repeats of its first
// argument. The tokenizer and the stemmer belong to the `natural` library
// and are parameters here.

module Features {

  /** `toLowerCase` on one character, over the ASCII letters. */
  function LowerChar(c: char): (r: char)
    ensures 'A' <= c <= 'Z' ==> r as int == c as int + 32
    ensures !('A' <= c <= 'Z') ==> r == c
    ensures !('A' <= r <= 'Z')
  {
    if 'A' <= c <= 'Z' then (c as int + 32) as char else c
  }

  /** Line 8: the text lower-cased, character by character. */
  function Lower(text: string): (r: string)
    ensures |r| == |text|
    ensures forall i :: 0 <= i < |text| ==> r[i] == LowerChar(text[i])
  {
    if |text| == 0 then ""
    else Lower(text[..|text| - 1]) + [LowerChar(text[|text| - 1])]
  }

  /** Lowering twice is lowering once. */
  lemma LowerIdempotent(text: string)
    ensures Lower(Lower(text)) == Lower(text)
  {
    var once := Lower(text);
    var twice := Lower(once);
    forall i | 0 <= i < |text|
      ensures twice[i] == once[i]
    {
      assert !('A' <= once[i] <= 'Z');
    }
  }

  /** Line 11: every token replaced by its stem, in place in the list. */
  function StemAll(tokens: seq<string>, stem: string -> string): (r: seq<string>)
    ensures |r| == |tokens|
    ensures forall i :: 0 <= i < |tokens| ==> r[i] == stem(tokens[i])
  {
    if |tokens| == 0 then []
    else StemAll(tokens[..|tokens| - 1], stem) + [stem(tokens[|tokens| - 1])]
  }

  /** Stemming a concatenation stems each part. */
  lemma {:induction false} StemAllAppend(t1: seq<string>, t2: seq<string>, stem: string -> string)
    ensures StemAll(t1 + t2, stem) == StemAll(t1, stem) + StemAll(t2, stem)
  {
    var l := StemAll(t1 + t2, stem);
    var rr := StemAll(t1, stem) + StemAll(t2, stem);
    assert |l| == |rr|;
    forall i | 0 <= i < |l|
      ensures l[i] == rr[i]
    {
      if i < |t1| {
        assert (t1 + t2)[i] == t1[i];
      } else {
        assert (t1 + t2)[i] == t2[i - |t1|];
      }
    }
  }

  /** Line 14: the stop-word list. */
  const StopWords: seq<string> := ["the", "is", "and", "in", "on", "at"]

  /** Lodash's difference of xs and excluded: the elements of xs, in order and with
      repeats, that are not in excluded. */
  function Difference(xs: seq<string>, excluded: seq<string>): (r: seq<string>)
    ensures |r| <= |xs|
    ensures forall w :: w in r <==> w in xs && w !in excluded
  {
    if |xs| == 0 then []
    else
      var front := xs[..|xs| - 1];
      var x := xs[|xs| - 1];
      assert xs == front + [x];
      var p := Difference(front, excluded);
      if x in excluded then p else p + [x]
  }

  /** Removing from a concatenation removes from each part; with the
      one-element case below this determines `Difference` completely. */
  lemma {:induction false} DifferenceAppend(x1: seq<string>, x2: seq<string>, excluded: seq<string>)
    ensures Difference(x1 + x2, excluded) == Difference(x1, excluded) + Difference(x2, excluded)
  {
    if |x2| > 0 {
      var front := x2[..|x2| - 1];
      assert (x1 + x2)[..|x1 + x2| - 1] == x1 + front;
      assert (x1 + x2)[|x1 + x2| - 1] == x2[|x2| - 1];
      DifferenceAppend(x1, front, excluded);
    } else {
      assert x1 + x2 == x1;
    }
  }

  /** Each kept word occurs as often as before; excluded words not at all. */
  lemma {:induction false} DifferenceCount(xs: seq<string>, excluded: seq<string>, w: string)
    ensures multiset(Difference(xs, excluded))[w] == if w in excluded then 0 else multiset(xs)[w]
  {
    if |xs| > 0 {
      var front := xs[..|xs| - 1];
      assert xs == front + [xs[|xs| - 1]];
      DifferenceCount(front, excluded, w);
    }
  }

  lemma DifferenceSingle(x: string, excluded: seq<string>)
    ensures Difference([x], excluded) == if x in excluded then [] else [x]
  {
    assert [x][..0] == [];
  }

  /** Nothing to remove: the sequence is unchanged. */
  lemma {:induction false} DifferenceNone(xs: seq<string>, excluded: seq<string>)
    requires forall w :: w in xs ==> w !in excluded
    ensures Difference(xs, excluded) == xs
  {
    if |xs| > 0 {
      var front := xs[..|xs| - 1];
      assert xs == front + [xs[|xs| - 1]];
      DifferenceNone(front, excluded);
    }
  }

  /** Removing the same words twice removes nothing more. */
  lemma DifferenceIdempotent(xs: seq<string>, excluded: seq<string>)
    ensures Difference(Difference(xs, excluded), excluded) == Difference(xs, excluded)
  {
    DifferenceNone(Difference(xs, excluded), excluded);
  }

  /** Lines 11-15 on a given token list. */
  function FeaturesOf(tokens: seq<string>, stem: string -> string): (r: seq<string>)
    ensures |r| <= |tokens|
    ensures forall w :: w in r ==> w !in StopWords
    ensures forall w :: w in r <==> w !in StopWords && exists i :: 0 <= i < |tokens| && stem(tokens[i]) == w
  {
    var stemmed := StemAll(tokens, stem);
    assert forall w :: w in stemmed <==> exists i :: 0 <= i < |tokens| && stem(tokens[i]) == w by {
      forall w | w in stemmed
        ensures exists i :: 0 <= i < |tokens| && stem(tokens[i]) == w
      {
        var i :| 0 <= i < |stemmed| && stemmed[i] == w;
        assert stem(tokens[i]) == w;
      }
    }
    Difference(stemmed, StopWords)
  }

  /** Lines 7-16: `extractFeatures`. */
  function ExtractFeatures(text: string, tokenize: string -> seq<string>, stem: string -> string): (r: seq<string>)
    ensures |r| <= |tokenize(Lower(text))|
    ensures forall w :: w in r ==> w !in StopWords
    ensures forall w :: w in r <==>
              w !in StopWords && exists i :: 0 <= i < |tokenize(Lower(text))| && stem(tokenize(Lower(text))[i]) == w
  {
    FeaturesOf(tokenize(Lower(text)), stem)
  }

  /** Token lists are processed piecewise, so the output keeps the token order. */
  lemma FeaturesAppend(t1: seq<string>, t2: seq<string>, stem: string -> string)
    ensures FeaturesOf(t1 + t2, stem) == FeaturesOf(t1, stem) + FeaturesOf(t2, stem)
  {
    StemAllAppend(t1, t2, stem);
    DifferenceAppend(StemAll(t1, stem), StemAll(t2, stem), StopWords);
  }

  /** One token: its stem, unless the stem is a stop word. Removal happens
      after stemming, so a token whose stem is a stop word is dropped. */
  lemma FeaturesSingle(token: string, stem: string -> string)
    ensures FeaturesOf([token], stem) == if stem(token) in StopWords then [] else [stem(token)]
  {
    assert StemAll([token], stem) == [stem(token)];
    DifferenceSingle(stem(token), StopWords);
  }

  /** The text is lower-cased before tokenizing, so case does not matter. */
  lemma ExtractFeaturesIgnoresCase(text: string, tokenize: string -> seq<string>, stem: string -> string)
    ensures ExtractFeatures(Lower(text), tokenize, stem) == ExtractFeatures(text, tokenize, stem)
  {
    LowerIdempotent(text);
  }

  /** Filtering the output for stop words again leaves it unchanged. */
  lemma ExtractFeaturesFiltered(text: string, tokenize: string -> seq<string>, stem: string -> string)
    ensures Difference(ExtractFeatures(text, tokenize, stem), StopWords) == ExtractFeatures(text, tokenize, stem)
  {
    DifferenceIdempotent(StemAll(tokenize(Lower(text)), stem), StopWords);
  }
}
