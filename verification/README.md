# significant-terms in Dafny

A model of the core of the `significant-terms` TypeScript library: the pipeline
that turns tokenized documents into a ranked list of significant terms and
phrases, and the phrase lookup used to navigate and highlight documents.

- `DocFrequencies` (`doc_frequencies.dfy`): `countDocFrequencies`. JavaScript
  records and `Map`s are association lists `seq<(K, nat)>` in insertion order.
  A key that is not in the table reads as 0, as `counts[token] || 0` does for a
  term the table does not hold. Keys inherited from `Object.prototype` are not
  modelled (see "Left out"). The counter is generic in its key type and is
  reused for the pair counts of the phrase detector.
- `Heuristics` (`heuristics.dfy`): the JLH and percentage heuristics, computed
  exactly over `real`.
- `StableSort` (`stable_sort.dfy`): `Array.prototype.sort` with a
  descending-key comparator. It is a stable insertion sort, with stability
  stated as "every class of equal keys keeps its input order". A uniqueness
  lemma shows that any sorted rearrangement with that property is this sort.
- `SignificantTerms` (`significant_terms.dfy`): `computeSignificantTermsFromCounts`
  and `computeSignificantTerms`. The thrown error is a `Result` failure that
  carries what the message reports: the term and its background count.
- `Sequences` (`sequences.dfy`): `detectAndSortSequences`. This covers per-document
  adjacent-pair counting, greedy non-overlapping pair acceptance in descending
  count order, the singletons, and the final stable sort by group score.
- `Highlight` (`highlight.dfy`):
  - `containsPhrase`;
  - `nextIndexWithPhrase` / `prevIndexWithPhrase`, with JavaScript's truncating
    `%` written out;
  - `escapeHTML`;
  - the branch of `highlightPhraseHTML` taken when the term has no tokens.
- The `*_examples.dfy` files state the scenarios of the library's tests over
  concrete inputs. `DocFrequenciesExamples` (`doc_frequencies_examples.dfy`)
  holds the counts of a few small document lists over abstract keys, which
  the string and pair scenarios instantiate.

The scoring function and the tokenizer are function-typed parameters
(`SignificanceHeuristic`, `Tokenizer` in `types.dfy`). The source gives
`isSubset` and `minDocCount` default values (`true`, `2`). Here every caller
passes them explicitly.

## Model

| member | source | states |
|---|---|---|
| DocFrequencies.CountDocFrequencies | src/utils/countDocFrequencies.ts:11-20 | keys are distinct; a token is a key exactly when some document contains it; its count is the number of documents containing it (`DocCount`) |
| DocFrequencies.Increment | src/utils/countDocFrequencies.ts:16 | the incremented key's count rises by one, every other count is unchanged, a new key is appended at the end, existing keys keep their order |
| DocFrequencies.Dedup | src/utils/countDocFrequencies.ts:14 | `new Set(tokenStream)`: same members as the document, no repeats |
| DocFrequencies.AddAll | src/utils/countDocFrequencies.ts:15-17 | each token of the deduplicated document gains exactly one count; keys stay distinct |
| DocFrequencies.CountAppend | src/utils/countDocFrequencies.ts:13-18 | one turn of the outer loop: counting `docs + [d]` is adding the distinct tokens of `d` to the counts of `docs` |
| DocFrequencies.GetAbsent | src/utils/computeSignificantTermsFromCounts.ts:38 | a key that is not present reads as 0, as the fallback to 0 on a missing background entry does |
| DocFrequencies.GetFindsEntry | src/utils/computeSignificantTermsFromCounts.ts:37-38 | with distinct keys, looking up an entry's key returns that entry's count |
| DocFrequencies.DocCountBounds | src/utils/countDocFrequencies.ts:13-17 | a document count is at most the number of documents, and at least 1 exactly when some document contains the token |
| DocFrequencies.CountsInRange | src/utils/countDocFrequencies.ts:13-17 | every stored count lies between 1 and the number of documents |
| DocFrequencies.DocumentOrderIrrelevant | src/utils/countDocFrequencies.ts:13-17 | any reordering of the documents gives the same counts and the same keys |
| DocFrequencies.DocCountTokenSets | src/utils/countDocFrequencies.ts:14 | counts depend only on each document's token set |
| DocFrequencies.RepeatedTokenCountsOnce | src/utils/countDocFrequencies.ts:14 | repeating a token inside a document that already holds it changes no count |
| Heuristics.JlhScore | src/heuristics/JLH.ts:11-18 | 0 when a size or the background frequency is 0; never negative |
| Heuristics.JlhPositiveIff | src/heuristics/JLH.ts:12-17 | the score is positive exactly when the guards pass and the foreground rate exceeds the background rate |
| Heuristics.JlhZeroForeground | src/heuristics/JLH.ts:14-17 | a term absent from the foreground scores 0 |
| Heuristics.PercentageScore | src/heuristics/PercentageScore.ts:7-10 | 0 when the background frequency is 0, otherwise the ratio foreground/background frequency; non-negative; at most 1 when the foreground frequency does not exceed the background one |
| Heuristics.PercentageIgnoresSizes | src/heuristics/PercentageScore.ts:7-9 | the score does not depend on the two set sizes |
| Heuristics.JlhExample | tests/heuristics.test.ts:15-18 | `score(10, 100, 5, 1000)` is positive |
| StableSort.SortDesc | src/utils/computeSignificantTermsFromCounts.ts:63-64 | the result is non-increasing by key and a permutation of the input |
| StableSort.SortDescStable | src/utils/computeSignificantTermsFromCounts.ts:63-64 | for every key value, the elements with that key appear in their input order |
| StableSort.StableSortIsUnique | src/utils/computeSignificantTermsFromCounts.ts:63-64 | any non-increasing arrangement that keeps each key class in input order equals the sort |
| StableSort.SortDescOfSorted | src/utils/computeSignificantTermsFromCounts.ts:63-64 | a list that is already non-increasing comes out of the sort unchanged, so sorting is idempotent |
| StableSort.SortDescMember | src/utils/detectAndSortSequences.ts:93 | sorting neither adds nor drops an element |
| StableSort.SortDescKeepsTieOrder | src/utils/detectAndSortSequences.ts:93 | two sorted elements with equal keys come from input positions in the same order |
| SignificantTerms.Qualified | src/utils/computeSignificantTermsFromCounts.ts:37-61 | reference list: a record is present exactly when it is the scored form of an entry with enough documents and a positive score |
| SignificantTerms.QualifiedPairOrder | src/utils/computeSignificantTermsFromCounts.ts:37-59 | records appear in the iteration order of their entries |
| SignificantTerms.ScoreTerms | src/utils/computeSignificantTermsFromCounts.ts:37-61 | fails exactly when some entry violates the subset check; the error names the first violating entry; otherwise yields the reference list |
| SignificantTerms.SliceTo | src/utils/computeSignificantTermsFromCounts.ts:65 | `slice(0, topN)`: a prefix of length `min(topN, n)` for `topN >= 0`, of `n + topN` (at least 0) for negative `topN` |
| SignificantTerms.ScoredFacts | src/utils/computeSignificantTermsFromCounts.ts:38-59 | a qualifying record has a positive score, at least `minDocCount` documents, comes from an entry, carries the adjusted background count and the score the heuristic gives for the adjusted totals |
| SignificantTerms.ComputeSignificantTermsFromCounts | src/utils/computeSignificantTermsFromCounts.ts:17-66 | empty when the foreground total is below `minDocCount`; fails exactly when the check runs (`isSubset`, enough documents) and some foreground count exceeds its background count; a success is sorted and at most `topN` long |
| SignificantTerms.FromCountsIsRankingPrefix | src/utils/computeSignificantTermsFromCounts.ts:63-65 | a success is the `topN` prefix of the stably sorted reference list |
| SignificantTerms.FromCountsReportsFirstViolation | src/utils/computeSignificantTermsFromCounts.ts:37-47 | the error names the first entry, in iteration order, whose count exceeds its background count, with the term and that background count |
| SignificantTerms.SelectedRecordsAreScoredEntries | src/utils/computeSignificantTermsFromCounts.ts:37-59 | every returned record comes from a foreground entry with its count, passes the thresholds, and carries the background count and score passed to the heuristic |
| SignificantTerms.OmittedEntriesDoNotOutscore | src/utils/computeSignificantTermsFromCounts.ts:63-65 | a qualifying record left out scores no higher than any returned record |
| SignificantTerms.ShortResultIsComplete | src/utils/computeSignificantTermsFromCounts.ts:65 | a result shorter than `topN` holds every qualifying record |
| SignificantTerms.TruncationIsPrefix | src/utils/computeSignificantTermsFromCounts.ts:65 | a smaller `topN` gives a prefix of the result for a larger one |
| SignificantTerms.TiesKeepEntryOrder | src/utils/computeSignificantTermsFromCounts.ts:63-64 | returned records of equal score keep the iteration order of their entries |
| SignificantTerms.ComputeSignificantTerms | src/utils/computeSignificantTerms.ts:12-32 | empty when there are fewer documents than `minDocCount`; never fails without `isSubset`; a success is sorted and at most `topN` long |
| SignificantTerms.ComputedRecordsCountDocuments | src/utils/computeSignificantTerms.ts:21-31 | each returned record's count is the number of documents containing its term, at least `minDocCount`, with a positive score |
| SignificantTerms.ComputeSignificantTermsErrorIff | src/utils/computeSignificantTerms.ts:21-31 | fails exactly when there are enough documents, `isSubset` holds, and some term occurs in more documents than its background count |
| SignificantTermsExamples.CountExample | tests/computeSignificantTerms.test.ts:82-87 | `[["apple","banana"],["apple"]]` counts apple 2 and banana 1 |
| SignificantTermsExamples.SameTokenCounts | src/utils/countDocFrequencies.ts:13-17 | `n` documents holding just `t` count `t` exactly `n` times |
| SignificantTermsExamples.SubsetViolationExample | tests/computeSignificantTerms.test.ts:52-66 | three "apple" documents against background count 2 fail with the exceeds-background error |
| SignificantTermsExamples.BelowMinDocCountExample | tests/computeSignificantTerms.test.ts:68-80 | three terms in one document each give an empty result at `minDocCount` 2 |
| SignificantTermsExamples.ForegroundOnlyTermExample | tests/computeSignificantTerms.test.ts:37-50 | without `isSubset` "dragonfruit", absent from the background, is returned |
| Sequences.ScoreOfLastEntry | src/utils/detectAndSortSequences.ts:36 | a term's looked-up score is that of its last entry, as the `Map` constructor keeps |
| Sequences.AdjacentPairs | src/utils/detectAndSortSequences.ts:48-58 | a pair is listed exactly when both are top terms and the second immediately follows the first |
| Sequences.PairStreams | src/utils/detectAndSortSequences.ts:45-60 | one pair list per token stream, in stream order |
| Sequences.PairCountIsAdjacencyCount | src/utils/detectAndSortSequences.ts:45-60 | a pair's count is the number of streams in which it is adjacent when both are top terms, 0 otherwise |
| Sequences.PairCountEntry | src/utils/detectAndSortSequences.ts:45-60 | every stored pair is a pair of top terms whose count is its adjacency count, at least 1 |
| Sequences.AdjacencyDocCountBound | src/utils/detectAndSortSequences.ts:45-60 | an adjacency count is at most the number of streams |
| Sequences.TermsOf | src/utils/detectAndSortSequences.ts:77-78 | `usedTerms`: exactly the terms of the accepted pairs |
| Sequences.Candidates | src/utils/detectAndSortSequences.ts:64-65 | the candidates are the pair counts rearranged into non-increasing count order |
| Sequences.Greedy | src/utils/detectAndSortSequences.ts:64-81 | accepted pairs are candidates with count at least `minDocCount` and no two share a term |
| Sequences.GreedyIsMaximal | src/utils/detectAndSortSequences.ts:67-79 | a frequent candidate not accepted shares a term with a pair accepted earlier |
| Sequences.Singles | src/utils/detectAndSortSequences.ts:84-89 | one-word groups exactly for the entries whose term is unused |
| Sequences.DetectAndSortSequences | src/utils/detectAndSortSequences.ts:31-34 | with at most one term, each term wrapped on its own, in input order |
| Sequences.ResultGroups | src/utils/detectAndSortSequences.ts:63-96 | with two or more terms, the result holds exactly the accepted pairs as phrases and the unused terms as one-word groups |
| Sequences.GroupsAreTermsOrPhrases | src/utils/detectAndSortSequences.ts:76-87 | every group has one or two terms, all of them top terms |
| Sequences.EveryTermIsGrouped | src/utils/detectAndSortSequences.ts:84-89 | every top term lands in some group |
| Sequences.PhrasesAreFrequentAdjacencies | src/utils/detectAndSortSequences.ts:64-67 | a phrase joins top terms adjacent in that order in at least `minDocCount` streams, and in at least one |
| Sequences.PhrasesAreDisjoint | src/utils/detectAndSortSequences.ts:69-78 | a phrase shares no term with any other group |
| Sequences.PhraseAppearsOnce | src/utils/detectAndSortSequences.ts:64-81 | a two-word group sits at one index of the result: no phrase is repeated, because accepted pairs share no term |
| Sequences.RejectedPairIsBlocked | src/utils/detectAndSortSequences.ts:64-79 | a frequent pair of top terms that is not a phrase overlaps a phrase adjacent in at least as many streams |
| Sequences.SingleOccursOnce | src/utils/detectAndSortSequences.ts:84-89 | with distinct terms, an unused term's one-word group occurs once among the singles |
| Sequences.UnusedTermAppearsOnce | src/utils/detectAndSortSequences.ts:84-89 | with distinct terms, an unused term's one-word group sits at one position only |
| Sequences.GroupScoreMatches | src/utils/detectAndSortSequences.ts:70-87 | with distinct terms, a group's score is its term's score, or the higher of a phrase's two |
| Sequences.Ranked | src/utils/detectAndSortSequences.ts:92-93 | the groups rearranged into non-increasing stored score |
| Sequences.ResultOrderedByGroupScore | src/utils/detectAndSortSequences.ts:92-95 | with distinct terms, groups come out in non-increasing group score |
| Sequences.TiesKeepGroupOrder | src/utils/detectAndSortSequences.ts:92-93 | groups of equal score keep their order before sorting: phrases first, then singles in input order |
| SequencesExamples.DetectsCommonBigram | tests/detectAndSortSequences.test.ts:7-29 | charles/dolan/hbo/cablevision give `[["charles","dolan"],["cablevision"],["hbo"]]` |
| SequencesExamples.KeepsSinglesWithoutStrongSequence | tests/detectAndSortSequences.test.ts:32-45 | with no adjacent top terms the output is `[["impeachment"],["trial"]]` |
| SequencesExamples.UnrelatedStreamsHaveNoPairs | tests/detectAndSortSequences.test.ts:38-41 | streams without adjacent top terms produce no pair counts |
| SequencesExamples.SelfPairBecomesPhrase | src/utils/detectAndSortSequences.ts:64-79 | a term adjacent to itself in enough streams yields the phrase `[a, a]` |
| Highlight.RemoveEmpty | src/utils/highlight.ts:59 | `filter(Boolean)`: the non-empty tokens, no more than the input; a list without empty tokens is kept as it is |
| Highlight.RemoveEmptyConcat | src/utils/highlight.ts:59 | the filter distributes over concatenation, so it keeps order and repeats |
| Highlight.SearchFrom | src/utils/highlight.ts:26-32 | true exactly when the phrase matches at the start index or later |
| Highlight.ContainsPhrase | src/utils/highlight.ts:22-33 | true exactly when the phrase is non-empty and is a contiguous run of the stream |
| Highlight.SingleTokenIsMembership | src/utils/highlight.ts:24 | a one-token phrase is contained exactly when it is a member |
| Highlight.SliceIsContained | src/utils/highlight.ts:26-31 | every non-empty slice of a stream is contained in it |
| Highlight.LongerPhraseIsNeverContained | src/utils/highlight.ts:26 | a phrase longer than the stream is never contained |
| Highlight.ContainmentExtends | src/utils/highlight.ts:26-31 | containment survives adding tokens on either side |
| Highlight.JsRem | src/utils/highlight.ts:63 | JavaScript `%`: the remainder lies in `(-n, n)`, has the sign of the dividend, and differs from it by a multiple of `n` |
| Highlight.StartPosition | src/utils/highlight.ts:63 | `((currentPos % n) + n) % n` lies in `[0, n)` and is the Euclidean remainder of `currentPos` |
| Highlight.ScanForward | src/utils/highlight.ts:65-72 | a found position is the first hit at forward steps `step..n`; none means no hit there |
| Highlight.ScanBackward | src/utils/highlight.ts:102-109 | a found position is the first hit at backward steps `step..n`; none means no hit there |
| Highlight.NextIndexWithPhrase | src/utils/highlight.ts:49-74 | null for no positions or an empty phrase; a result is a position whose document exists and contains the phrase; null exactly when no position does |
| Highlight.PrevIndexWithPhrase | src/utils/highlight.ts:86-111 | the same as `NextIndexWithPhrase`, searching backward |
| Highlight.NextIsNearestHit | src/utils/highlight.ts:63-73 | no hit is fewer forward steps from the current position than the result |
| Highlight.PrevIsNearestHit | src/utils/highlight.ts:100-110 | no hit is fewer backward steps from the current position than the result |
| Highlight.NextReturnsCurrentOnlyWhenAlone | src/utils/highlight.ts:65-66 | the current position comes back only after a full turn: no other position holds the phrase |
| Highlight.PrevReturnsCurrentOnlyWhenAlone | src/utils/highlight.ts:102-103 | the backward counterpart |
| Highlight.ReplaceChar | src/utils/highlight.ts:9 | `replace(/c/g, rep)`: the output's characters are the input's other characters plus the replacement's; no `c` means no change |
| Highlight.ReplaceCharConcat | src/utils/highlight.ts:8-13 | a global single-character replace distributes over concatenation |
| Highlight.EscapeConcat | src/utils/highlight.ts:7-13 | `escapeHTML(a + b) == escapeHTML(a) + escapeHTML(b)` |
| Highlight.EscapeOne | src/utils/highlight.ts:7-13 | the chained replaces on one character give that character's entity |
| Highlight.EscapeHTMLIsPerCharacter | src/utils/highlight.ts:7-13 | the chain equals escaping each character on its own, because `&` goes first |
| Highlight.EscapedHasNoMarkup | src/utils/highlight.ts:7-13 | the output holds no `<`, `>`, `"` or `'` |
| Highlight.EscapeFixesOnlyPlainText | src/utils/highlight.ts:7-13 | the text is unchanged exactly when it holds none of the five special characters |
| Highlight.UnescapeEscape | src/utils/highlight.ts:7-13 | decoding the five entities restores the original text |
| Highlight.HighlightPhraseHTML | src/utils/highlight.ts:144-145 | a term with no non-empty tokens gives exactly the escaped text, which decodes back to the text and holds no markup characters; any other term takes the other branch |
| HighlightExamples.NextFromFirst | tests/highlight.test.ts:53-57 | positions `[2,0,3,1]`, from position 0: next is 1 |
| HighlightExamples.NextFromSecond | tests/highlight.test.ts:59-61 | from position 1: next is 2 |
| HighlightExamples.NextFromThird | tests/highlight.test.ts:63-65 | from position 2: next is 3 |
| HighlightExamples.NextWrapsAround | tests/highlight.test.ts:67-69 | from position 3: wraps to 1 |
| HighlightExamples.NextFromOutOfRange | src/utils/highlight.ts:63 | current positions 6 and -2 behave as 2 |
| HighlightExamples.PrevWrapsAround | src/utils/highlight.ts:102-108 | from position 1 backward: wraps to 3 |
| HighlightExamples.NothingMatches | tests/highlight.test.ts:72-75 | a phrase in no document gives null both ways |
| HighlightExamples.EmptyTermEscapesText | tests/highlight.test.ts:114-118 | a term that tokenizes to nothing but empty tokens gives the escaped text |
| HighlightExamples.AdjacencyMatters | tests/highlight.test.ts:21-26 | in `w x y z`, `w x` and `x y` are found; `w y` and `x w` are not |

Some definitions carry no contract of their own; the lemmas about them state
what they mean. `DocFrequencies.Get` is stated by `GetAbsent` and
`GetFindsEntry`; `Sequences.PairCounts` by `PairCountIsAdjacencyCount` and
`PairCountEntry`; `Sequences.ScoreOf` by `ScoreOfLastEntry`;
`Highlight.EscapeHTML` by `EscapeHTMLIsPerCharacter`, `EscapedHasNoMarkup`,
`EscapeFixesOnlyPlainText` and `UnescapeEscape`. The `Selection` members
`BackgroundCount` and `Violates` are stated by `ScoredFacts` (the background
count a record carries) and by the failure clause of
`ComputeSignificantTermsFromCounts`.

## Left out

- GND, mutual information and Solr relatedness (src/heuristics/GND.ts, MutualInformation.ts, SolrRelatedness.ts): they use `log`, `exp`, `sqrt` and rounding, which exact reals cannot express. The selector takes any heuristic as a parameter, so it covers them.
- Chi-square (src/heuristics/ChiSquare.ts): its edge cases are IEEE `NaN` and `Infinity` from an unguarded division. The heuristic parameter covers it.
- Floating point: scores are exact reals. Rounding, `NaN`, and the `score || 0` fallback in src/utils/detectAndSortSequences.ts:72-74 (which only matters for `NaN`) are not modelled.
- The regular-expression branch of `highlightPhraseHTML` (src/utils/highlight.ts:147-179) depends on JavaScript RegExp semantics. `Highlight.HighlightPhraseHTML` returns `None` there.
- Highlight.HighlightPhraseHTML: states only the empty-term branch; the result for a term with tokens is `None`, not a string.
- The tokenizer (src/utils/simpleTokenizer.ts) uses regex splitting and locale lower-casing. It is an arbitrary function parameter.
- File and process I/O (src/utils/countBackgroundVocab.ts, src/cli/*) and the heuristic registry (src/index.ts) are not modelled.
- Pair keys: the source encodes a pair as the string `a|b` and splits it again. A term containing `|` would be mis-split. Here a pair is a tuple, so that case is not modelled.
- Key order of `countDocFrequencies`: the model appends keys in order of first occurrence, as the source's `Set` and object iteration do, but no contract states that order. `SignificantTerms.TiesKeepEntryOrder` is stated over the order of the table it is given.
- `Object.entries` lists integer-like keys first in numeric order. Here iteration order is always insertion order.
- Numbers are integers: `currentPos`, `topN`, `minDocCount` and document ids are `int`, and totals are `nat`. Fractional or `NaN` values, and `currentPos ?? 0` for a missing position, are not modelled. A document id that is not a valid index of `tokenStreams` is treated like a non-array entry: no match.
- DocFrequencies.CountDocFrequencies: tables are plain objects in the source (src/utils/countDocFrequencies.ts:12). A token named after an inherited `Object.prototype` function (`constructor`, `toString`, ...) reads that function at line 16, so its stored count becomes a string such as `"function Object() { [native code] }1"`. A `__proto__` token is dropped: the assignment goes to the inherited `__proto__` setter, which ignores the non-object value, so the token never appears in the counts. The model treats every token as an own key counted from 0.
- DocFrequencies.GetAbsent: a key missing from the table reads 0 only for keys that are not inherited `Object.prototype` members; for those the source's `bgCounts[term] || 0` yields the inherited value (a function for `constructor` or `toString`, `Object.prototype` itself for `__proto__`).
- SignificantTerms.ComputeSignificantTermsFromCounts: assumes no term is named after an `Object.prototype` member. For such a term `bgCounts[term] || 0` (src/utils/computeSignificantTermsFromCounts.ts:38) yields the inherited value, which compares as `NaN`. When `isSubset` is true, `fgCount > bgCount` is false, so nothing is thrown, and the heuristic receives the inherited value as the background count. When `isSubset` is false, `bgCount += fgCount` (line 41) concatenates, and the heuristic receives a string. The model reads a background count of 0 there, so it reports a violation or scores the term against 0 (plus `fgCount` when `isSubset` is false).
- SignificantTerms.ComputeSignificantTermsErrorIff: the same assumption about `Object.prototype` member names as `ComputeSignificantTermsFromCounts`.
- Sequences.GroupScoreMatches: requires distinct top terms. With a repeated term, a one-word group carries its own entry's score while the phrase lookup uses the last entry's.
- Sequences.ResultOrderedByGroupScore: requires distinct top terms, for the same reason. For any input the result is sorted by the groups' stored scores (`StableSort.SortDesc`).
- Sequences.UnusedTermAppearsOnce: requires distinct top terms. A repeated term yields one singleton per entry, as in the source.
- Sequences.SingleOccursOnce: requires distinct top terms, for the same reason.
