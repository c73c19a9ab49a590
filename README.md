# Text-similarity services of a PDF comparison server

This project models the four services of the server that compare documents,
under `server/services/`:

- `cosineSimilarity.js` merges two sparse TF-IDF vectors (lists of
  `{term, tfidf}`) into one term-keyed object. It reads two aligned weight
  arrays back out, folds them into a dot product and two magnitudes, and
  guards the quotient against a zero magnitude (modules `Cosine` and
  `CosineAsWritten`).
- `jaccardSimilarity.js` filters `setA` by membership in `setB` and divides
  the count by the size of the set union (module `Jaccard`).
- `featureExtractor.js` lower-cases, tokenizes, stems and removes six stop
  words with lodash's `difference` (module `Features`).
- `tfidfVectorizer.js` feeds every call's documents into one module-level
  `TfIdf` store and reads the term lists back by index (module
  `TfIdfVectorizer`).

Shared modules: `Results` (Option, Result), `Seqs` (elements and
distinctness of a sequence) and `Vectors` (`TermWeight`, `SparseVector`).

The library code is outside the model and becomes parameters:
- `natural`'s tokenizer (`tokenize: string -> seq<string>`);
- the Porter stemmer (`stem: string -> string`);
- `TfIdf.listTerms` (the class constant `listTerms`, a function of the whole
  store and an index);
- `Math.sqrt` (`sqrt: real -> real`, constrained by `SqrtLike` or `IsSqrt`).

Numbers are `real`.

`alignVectors` builds its object in place over two loops, so it is a method.
Its object is kept as a key order (`keys`, insertion order) plus a
`map<string, Slot>`, and the invariant `MapReflects` relates both to the
inputs read so far. The vectorizer's store is the class `TfIdf` with a
`seq` field that `AddDocument` extends.

Behaviours of the code worth noting:
- `jaccardSimilarity` has no guard, so two empty arrays give 0 / 0, which
  is NaN. The model returns `NaN` rather than 0, and it does not restrict
  callers.
- With repeats in `setA` the Jaccard score can exceed 1, and swapping the
  arguments can change it (`[x, x]` against `[x]`). A `setA` without
  repeats is enough for a score of at most 1, and two arrays without repeats
  are enough for symmetry; these conditions are sufficient, not necessary.
- The TF-IDF store is one object at module level. It persists across calls
  and is not rebuilt per call.

## Model

| member | source | states |
|---|---|---|
| Cosine.Weight | server/services/cosineSimilarity.js:7 | a term a vector does not list has weight 0 |
| Cosine.WeightIsLastEntry | server/services/cosineSimilarity.js:6-18 | when a term repeats within one vector, the weight that counts is that of its last entry |
| Cosine.WeightExtend | server/services/cosineSimilarity.js:6-8 | reading one more entry replaces the weight of its term and leaves every other term's weight alone |
| Cosine.Dedup | server/services/cosineSimilarity.js:3-18 | the key order of the term map has no repeats and holds exactly the terms met |
| Cosine.InsertA | server/services/cosineSimilarity.js:7 | one step of the first loop keeps the term map equal to vectorA's weights with b = 0, and appends a term new to the map to the key order |
| Cosine.InsertFirst | server/services/cosineSimilarity.js:7 | one step of the first loop, for the entry after those read so far: the slot of its term is overwritten with its weight and b = 0, and a term new to the map is appended to the key order |
| Cosine.InsertAll | server/services/cosineSimilarity.js:6-8 | after the first loop the term map holds each term of vectorA once, in order of first appearance, with vectorA's last weight for it and b = 0 |
| Cosine.InsertNext | server/services/cosineSimilarity.js:13-17 | one step of the second loop, for the entry after those read so far: an existing slot gets b set, a new term is appended with a = 0, and the map reflects both vectors read so far |
| Cosine.InsertB | server/services/cosineSimilarity.js:13-17 | one step of the second loop sets b on an existing slot, or appends a new term with a = 0; the map then reflects both vectors read so far |
| Cosine.AlignVectors | server/services/cosineSimilarity.js:2-27 | both arrays have as many entries as there are distinct terms in the two vectors, and slot k of each holds the two vectors' weights of the same k-th merged term, 0 where a vector lacks it |
| Cosine.ReadColumns | server/services/cosineSimilarity.js:21-22 | reading the slots a and b in key order gives the two vectors' weight columns over the merged terms, of length the number of distinct terms |
| Cosine.DotProductZeros | server/services/cosineSimilarity.js:35 | when either aligned array holds only zeros the dot product is 0, whatever the other holds |
| Cosine.SumOfSquares | server/services/cosineSimilarity.js:38-39 | the magnitude fold is never negative |
| Cosine.Magnitude | server/services/cosineSimilarity.js:38-39 | a magnitude is non-negative and is 0 exactly when the vector's squared magnitude is 0 |
| Cosine.Guarded | server/services/cosineSimilarity.js:41 | when either magnitude is 0 the result is 0; otherwise the result times the product of the magnitudes is the dot product |
| Cosine.CosineFor | server/services/cosineSimilarity.js:32-41 | along any enumeration of the term map, when either aligned array has sum of squares 0 the result is 0; `CosineForValue` and `CosineAnyOrder` give its value |
| Cosine.CosineSimilarity | server/services/cosineSimilarity.js:30-45 | if either magnitude is 0 the result is exactly 0; otherwise it is the sum of weight products over vectorA's terms divided by the product of the two magnitudes, each over the vector's own terms |
| Cosine.AlignedTermsOrder | server/services/cosineSimilarity.js:3-18 | the key order starts with vectorA's distinct terms in their order of first appearance; vectorB's new terms only follow |
| Cosine.AlignedTermsCount | server/services/cosineSimilarity.js:2-27 | the key order has one entry per distinct term of the two vectors |
| Cosine.AlignedTermsCover | server/services/cosineSimilarity.js:2-18 | the merged key order lists every term of either vector exactly once |
| Cosine.SumOverSubset | server/services/cosineSimilarity.js:35 | over distinct keys, a sum depends only on which keys take part, not on their order, and keys where the summand is 0 can be dropped |
| Cosine.ProductOutside | server/services/cosineSimilarity.js:6-18 | a term a vector lacks contributes a zero product |
| Cosine.ColumnDot | server/services/cosineSimilarity.js:35 | the dot product of two aligned columns is the sum of weight products over the keys |
| Cosine.SquaresAreSelfDot | server/services/cosineSimilarity.js:38-39 | a sum of squares is the dot product of a column with itself |
| Cosine.SumOfSquareWeightsNonNegative | server/services/cosineSimilarity.js:38-39 | a sum of squared weights over any keys is non-negative |
| Cosine.SquaredMagnitudeNonNegative | server/services/cosineSimilarity.js:38-39 | a vector's squared magnitude is non-negative |
| Cosine.DotOverOwnTerms | server/services/cosineSimilarity.js:35 | along any enumeration of the merged terms the dot product is the sum of weight products over vectorA's own terms; terms of one vector only add 0 |
| Cosine.MagnitudeOverOwnTerms | server/services/cosineSimilarity.js:38-39 | along any enumeration of the merged terms a vector's sum of squares is taken over its own terms; the zeros padded in from the other vector add nothing |
| Cosine.DotOverCommonTerms | server/services/cosineSimilarity.js:35 | the dot product is the sum of weight products over the terms both vectors share |
| Cosine.CosineForValue | server/services/cosineSimilarity.js:32-41 | along any enumeration of the merged terms the guarded quotient is that of the dot product over vectorA's terms and the two own-term magnitudes |
| Cosine.CosineAnyOrder | server/services/cosineSimilarity.js:21-22 | the result is the same for every enumeration order of the term map, so the object's key order does not matter |
| Cosine.OverlapSymmetric | server/services/cosineSimilarity.js:35 | the dot product does not depend on which vector comes first |
| Cosine.CosineSymmetric | server/services/cosineSimilarity.js:35-41 | swapping vectorA and vectorB leaves the result unchanged |
| Cosine.CosineSelf | server/services/cosineSimilarity.js:30-45 | a vector compared with itself scores 1, or 0 when its squared magnitude is 0 |
| Cosine.CosineNonNegative | server/services/cosineSimilarity.js:30-45 | when every weight of both vectors is non-negative, as TF-IDF weights are, the result is not negative |
| CosineAsWritten.Visible | server/services/cosineSimilarity.js:13 | the entries of vectorB that the as-written test records are at most vectorB's entries, and each has a term of vectorA or a name not inherited from the prototype |
| CosineAsWritten.VisibleWeight | server/services/cosineSimilarity.js:13-17 | a term the as-written test handles keeps its vectorB weight |
| CosineAsWritten.VisibleWithoutInherited | server/services/cosineSimilarity.js:13 | with no inherited names, the as-written loop records every entry |
| CosineAsWritten.VisibleStep | server/services/cosineSimilarity.js:12-18 | the recorded entries grow by one entry exactly when its term is handled |
| CosineAsWritten.KeysHandled | server/services/cosineSimilarity.js:13 | every key of the term map is a term of vectorA or a recorded, non-inherited term |
| CosineAsWritten.InsertBAsWritten | server/services/cosineSimilarity.js:12-18 | one as-written step: an own key gets b set, an inherited name leaves the map unchanged, any other term gets a new slot with a = 0 |
| CosineAsWritten.AlignVectorsAsWritten | server/services/cosineSimilarity.js:2-27 | as written, for a fixed set of names the prototype chain supplies, the arrays are the columns over vectorA's terms and the recorded entries of vectorB only; a vectorB-only term named like an inherited member gets no slot (writes that change the prototype during the call are listed under Left out) |
| CosineAsWritten.ColumnOfVisible | server/services/cosineSimilarity.js:21-22 | over the as-written keys, vectorB's recorded entries and vectorB itself give the same weights |
| CosineAsWritten.InheritedNameDropped | server/services/cosineSimilarity.js:13 | for vectorA = [x:1] and vectorB = [x:1, constructor:1], as written the keys are [x] and the cosine is 1, while the corrected keys are [x, constructor] and the cosine is not 1 |
| Jaccard.Intersection | server/services/jaccardSimilarity.js:2 | the intersection holds exactly the elements of setA found in setB and is at most as long as setA |
| Jaccard.IntersectionCountOf | server/services/jaccardSimilarity.js:2 | each value of setB is kept as often as setA holds it, duplicates included; other values not at all |
| Seqs.ElemsCard | server/services/jaccardSimilarity.js:3 | collapsing duplicates never grows a list, leaves its size alone exactly when it has no repeats, and leaves a non-empty list non-empty |
| Jaccard.Union | server/services/jaccardSimilarity.js:3 | the union holds exactly the elements of either array, has at most the combined length, and is empty only when both arrays are |
| Jaccard.JaccardSimilarity | server/services/jaccardSimilarity.js:5 | the result is NaN exactly when both arrays are empty, and otherwise is a non-negative number |
| Jaccard.IntersectionAppend | server/services/jaccardSimilarity.js:2 | the filter works element by element: a concatenation is filtered part by part, so setA's order is kept |
| Jaccard.IntersectionSingle | server/services/jaccardSimilarity.js:2 | one element is kept exactly when setB contains it |
| Jaccard.IntersectionAll | server/services/jaccardSimilarity.js:2 | when every element of setA is in setB the intersection is setA itself, repeats included |
| Jaccard.IntersectionNone | server/services/jaccardSimilarity.js:2 | when no element of setA is in setB the intersection is empty |
| Jaccard.IntersectionDistinct | server/services/jaccardSimilarity.js:2 | without repeats in setA the intersection has none |
| Jaccard.IntersectionCount | server/services/jaccardSimilarity.js:2 | without repeats in setA the count is the number of shared values |
| Jaccard.UnionSymmetric | server/services/jaccardSimilarity.js:3 | the union is the same with the arguments swapped |
| Jaccard.JaccardDisjoint | server/services/jaccardSimilarity.js:2-5 | disjoint arrays, not both empty, score 0 |
| Jaccard.JaccardAtMostOne | server/services/jaccardSimilarity.js:2-5 | without repeats in setA the score is finite and at most 1 |
| Jaccard.JaccardRepeatsExceedOne | server/services/jaccardSimilarity.js:2-5 | [x, x] against [x] scores 2 |
| Jaccard.JaccardNotSymmetric | server/services/jaccardSimilarity.js:2-5 | swapping [x, x] and [x] changes the score |
| Jaccard.JaccardSymmetricWhenDistinct | server/services/jaccardSimilarity.js:2-5 | without repeats on either side, swapping the arguments leaves the score unchanged |
| Jaccard.JaccardSelf | server/services/jaccardSimilarity.js:2-5 | a non-empty array without repeats scores 1 against itself |
| Features.LowerChar | server/services/featureExtractor.js:8 | an upper-case ASCII letter maps to its lower-case letter, every other character is unchanged, and no upper-case letter remains |
| Features.Lower | server/services/featureExtractor.js:8 | lower-casing keeps the length and maps each character on its own |
| Features.LowerIdempotent | server/services/featureExtractor.js:8 | lower-casing twice is lower-casing once |
| Features.StemAll | server/services/featureExtractor.js:11 | the stemmed list has the length of the token list, and element i is the stem of token i |
| Features.StemAllAppend | server/services/featureExtractor.js:11 | stemming a concatenation stems each part |
| Features.Difference | server/services/featureExtractor.js:15 | the removal keeps exactly the non-excluded elements and never lengthens the list |
| Features.DifferenceCount | server/services/featureExtractor.js:15 | each kept word occurs as often as before, duplicates included; an excluded word not at all |
| Features.DifferenceAppend | server/services/featureExtractor.js:15 | the removal works element by element, so relative order is kept |
| Features.DifferenceSingle | server/services/featureExtractor.js:15 | one element is kept exactly when it is not excluded |
| Features.DifferenceNone | server/services/featureExtractor.js:15 | with nothing to remove, the list is unchanged |
| Features.DifferenceIdempotent | server/services/featureExtractor.js:15 | removing the same words twice removes nothing more |
| Features.FeaturesOf | server/services/featureExtractor.js:11-15 | the output is no longer than the token list, holds no stop word, and holds exactly the non-stop stems of the tokens |
| Features.ExtractFeatures | server/services/featureExtractor.js:7-18 | the same, for the tokens of the lower-cased text |
| Features.FeaturesAppend | server/services/featureExtractor.js:11-15 | token lists are processed piecewise, so the output follows the token order |
| Features.FeaturesSingle | server/services/featureExtractor.js:11-15 | a token is dropped exactly when its stem is a stop word, since removal comes after stemming |
| Features.ExtractFeaturesIgnoresCase | server/services/featureExtractor.js:8 | case in the input text does not matter |
| Features.ExtractFeaturesFiltered | server/services/featureExtractor.js:14-15 | filtering the output for stop words again leaves it unchanged |
| TfIdfVectorizer.Project | server/services/tfidfVectorizer.js:18-22 | each output vector copies term and tfidf from the library's term list, one entry per listed term, in the same order |
| TfIdfVectorizer.TfIdf.constructor | server/services/tfidfVectorizer.js:4 | the module-level store starts empty |
| TfIdfVectorizer.TfIdf.AddDocument | server/services/tfidfVectorizer.js:11 | adding a document appends it to the store |
| TfIdfVectorizer.VectorsAt | server/services/tfidfVectorizer.js:13-23 | n vectors, vector i read from store slot start + i |
| TfIdfVectorizer.AddDocuments | server/services/tfidfVectorizer.js:11 | the store grows by all of the call's documents, in order |
| TfIdfVectorizer.VectorizeText | server/services/tfidfVectorizer.js:6-24 | a missing or empty argument fails with the no-documents error and leaves the store unchanged; otherwise the store grows by the documents, the out-of-bounds error never occurs, and vector i is read from store index i, one vector per document |
| TfIdfVectorizer.VectorizeOwnDocuments | server/services/tfidfVectorizer.js:6-24 | the same errors and store growth, with vector i read from the slot holding the caller's document i |
| TfIdfVectorizer.OwnSlotsDescribeOwnDocuments | server/services/tfidfVectorizer.js:11-18 | with term lists computed per document, the vector read from the caller's own slot i describes the caller's document i, whatever the store held before the call |
| TfIdfVectorizer.IndexSlotsDescribeEarlierDocuments | server/services/tfidfVectorizer.js:13-18 | with term lists computed per document, vector i read from index i, as written, describes the earlier call's document in slot i wherever the store already held more than i documents |
| TfIdfVectorizer.SecondCallReadsEarlierDocument | server/services/tfidfVectorizer.js:13-18 | when the store already holds "first" and a call adds "second", the vector as written describes "first"; read from the caller's own slot it describes "second" |

## Left out

- The tokenizer, the Porter stemmer and the term weights of `natural.TfIdf` are library code. They are parameters with no properties assumed.
- No IDF formula is modelled.
- `natural`'s `addDocument` tokenizes its argument itself; the model's store keeps the documents as given.
- IEEE floating point is not modelled: numbers are `real`, so rounding, overflow and `Infinity` are left out.
- `Math.sqrt` is an abstract function. The cosine only assumes that it is non-negative on non-negative arguments and 0 exactly at 0; `CosineSelf` and the counterexample also assume that the root squares back to its argument.
- CosineSimilarity: the upper bound of 1 is not proved; it needs the Cauchy-Schwarz inequality, which is not part of this model. The lower bound of 0 for non-negative weights is proved (`CosineNonNegative`).
- The `console.log` on line 42 of `cosineSimilarity.js` is output only and is left out.
- `Object.values` lists integer-like keys before the others, so the real array order can differ from insertion order. The model uses insertion order and proves the result independent of the order (`CosineAnyOrder`).
- A term of vectorA named `__proto__` replaces the object's prototype instead of adding a slot; this is not modelled.
- AlignVectorsAsWritten: the set of inherited names is a fixed parameter, so the writes the as-written second loop makes to inherited members are not modelled. For a vectorB term `__proto__` the write lands on `Object.prototype` itself: a later vectorB term with the weight's property name (`b`) then finds the inherited value, is taken for an existing entry and gets no slot, in that call and in every later one. For vectorA = [x:1] and vectorB = [x:1, __proto__:1, b:1] the code gives aligned [1] and [1], while the model keeps `b`. Writes to other inherited members, such as `termMap.constructor.b`, change shared objects outside the term map and are not modelled either.
- `toLowerCase` is modelled on the ASCII letters only; the rest of Unicode case mapping is not.
- Jaccard arrays hold strings, the features this server compares; other kinds of values and `includes`' treatment of NaN are not modelled.
- VectorizeText: any falsy `documents` argument is modelled as `None`. A non-array argument that is truthy is not modelled.
- `server/services/textExtractor.js`, the routes, the server, the Mongoose model and the client are not part of this model.
- No ranking or score aggregation is modelled, as no shown file combines the scores.

## Findings

| source | as written | input that shows it | evidently intended | confidence | as-written member | corrected member |
|---|---|---|---|---|---|---|
| server/services/cosineSimilarity.js:13 | `termMap[item.term]` on an object literal also finds members inherited from `Object.prototype`, so a vectorB-only term such as `constructor` gets no slot | vectorA = [x:1], vectorB = [x:1, constructor:1]: aligned [1] and [1], cosine 1 | an own-key test: aligned [1, 0] and [1, 1], cosine 1/sqrt(2) | not executed | CosineAsWritten.AlignVectorsAsWritten, CosineAsWritten.InheritedNameDropped | Cosine.AlignVectors |
| server/services/tfidfVectorizer.js:18 | `tfidf.listTerms(i)` reads store index i although the call's documents were appended after the documents of earlier calls | a first call with ["first"], then a call with ["second"]: the one vector returned describes "first" | read index (store size before the call + i) | not executed | TfIdfVectorizer.VectorizeText, TfIdfVectorizer.SecondCallReadsEarlierDocument | TfIdfVectorizer.VectorizeOwnDocuments |
