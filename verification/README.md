# A verified model of the OpenTREP query core

OpenTREP resolves a free-text travel query ("rio de janeiro lod reykyavki") into points of
reference. It cuts the query into slices, lists every way to group the words of each slice,
looks every group up in a Xapian index, weighs the groupings and keeps the best one. Around
that sit an edit distance, a UTF-8 codec, a comparison of floating-point numbers up to a few
units in the last place, and the construction of the term sets of the index.

This project models that logic in Dafny 4.11 and proves what it promises, for all inputs.
Code that works step by step in the source is imperative here (classes with mutable fields,
loops over arrays and lists); each such method is proved against a specification function,
and the theorems are about those functions. Xapian, ICU and the POR parser are parameters.

| file | source | content |
|---|---|---|
| `Words.dfy` | `basic/Utilities.cpp`, `bom/WordHolder.cpp` | tokenising and joining, and their round trip |
| `StringPartition.dfy` | `bom/StringPartition.cpp` | the recursive enumeration of the groupings of a phrase |
| `QuerySlices.dfy` | `bom/QuerySlices.cpp` | the slicing loop and its look-up, and what slicing loses |
| `Levenshtein.dfy` | `bom/Levenshtein.cpp` | the matrix, and edit scripts as its meaning |
| `TriangleInequality.dfy` | `bom/Levenshtein.cpp` | what a transposition costs, and when a detour is cheaper |
| `Filter.dfy` | `bom/Filter.cpp` | trimming and filtering |
| `ScoreBoard.dfy`, `Result.dfy`, `ResultHolder.dfy`, `ResultCombination.dfy` | same names under `bom/` | scores, weights and choices, on mutable objects |
| `RequestInterpreter.dfy`, `Ranking.dfy` | `command/RequestInterpreter.cpp` | the search over the partitions; a slice, and a query, from end to end |
| `WholeQueries.dfy` | `command/RequestInterpreter.cpp`, `bom/QuerySlices.cpp` | what a whole query gives, on one index |
| `RankingTheorems.dfy` | `bom/Result.cpp`, `bom/ResultHolder.cpp`, `bom/ResultCombination.cpp` | what the constants of the weights make win, code matches and unknown words first |
| `WholePhrases.dfy` | `bom/ResultHolder.cpp`, `bom/ResultCombination.cpp` | when a phrase that matches as a whole is chosen |
| `WordCombinations.dfy` | `bom/WordCombinationHolder.cpp` | the word combinations that are indexed |
| `HitWeights.dfy` | `bom/Result.cpp`, `bom/ScoreBoard.cpp` | what a document weighs in the end, out of the query and the document |
| `Place.dfy` | `bom/Place.cpp`, `command/IndexBuilder.cpp` | the term sets of a place, and of a file of places |
| `PlaceTerms.dfy` | `bom/Place.cpp` | under which terms a place is found, item by item of its record |
| `Utf8Handler.dfy` | `basic/UTF8Handler.cpp` | the codec, against section 3 of RFC 3629 |
| `FloatCompare.dfy` | `basic/float_utils_google.hpp` | bit patterns at any width, and the numbers they stand for |
| `Basics.dfy` | | products and powers, and one fact about sequences |

## Where the code surprises

* `getDistance` tests `i > 2 && j > 2` before a transposition, so that the first two characters
  are never swapped: "ab" and "ba" are 2 apart, "xab" and "xba" 1. On any string, swapping two
  different neighbours costs 1, and 2 at the front (`TriangleInequality.AdjacentSwapCosts`).
* The distance is not a metric (`TriangleInequality.TriangleInequalityFails`). The triangle
  inequality holds through a string b, whatever is on either side, if and only if b has no two
  different neighbours behind its first character (`TriangleInequality.NoDetourIff`). A detour is
  never cheaper than half of the direct way (`Levenshtein.RelaxedTriangleInequality`).
* `toWideString` makes no progress on the lead bytes F8 to FF, and can step over the size of a
  truncated string (`Utf8.DecodingCanFail`). It stops if and only if the lead bytes chain up to an
  exit (`Utf8.StopsIffLands`).
* The codec converts the surrogates D800 to DFFF like any other number, although section 3 of
  RFC 3629 forbids them; the round trips therefore hold for them as well.
* Among the partitions of words none of which matches anything, together or apart, the single
  words are chosen if and only if neither the phrase nor a part of it is cheaper as one string
  (`RankingTheorems.SinglesAreChosenIff`). From 2 to 42 words this is the case exactly when the
  filter keeps every word (`RankingTheorems.SinglesAreChosenIffKept`); otherwise the whole phrase is
  chosen, however few words are dropped (`RankingTheorems.UnknownPhraseChoice`). These are theorems
  about the weights and the choice alone, for any caller of `searchString`.
  `interpretTravelRequest` never gets there, because it slices first, on the same index: in each of
  its slices of several words, any two neighbours match something
  (`WholeQueries.PairsOfASliceMatch`). A query none of whose neighbours match is read word by word
  whatever the filter drops (`WholeQueries.UnlinkedQueryIsReadWordByWord`).
* The set that keeps a word from being reported twice is local to a slice: "xyz paris xyz" reports
  "xyz" twice (`WholeQueries.AWordIsReportedTwice`). No word is reported twice if and only if no
  unknown word stands in two slices (`WholeQueries.NoWordIsReportedTwiceIff`).
* A phrase that matches in full beats its splits even if all of its words are codes, as long as no
  code has a greater PageRank and that one is at most 59 (`WholePhrases.WholePhraseOfEqualRank`).
  Codes that weigh more than 850 times 100, as those that match in full with a PageRank above 77.28
  do, beat the phrase they make, however well that one matches
  (`WholePhrases.HeavyCodesBeatThePhrase`).
* `Place::buildIndexSets` reads the administrative level 2 code from level 1
  (`Places.Level2CodeIsIgnored`), so that the level 2 code can be lost
  (`Places.Level2CodeCanBeLost`). A code without spaces is a term if and only if another detail of
  the location has the same text, or a name has it as a word or is normalised to it
  (`Places.Level2CodeIsATermIff`).
* Almost equal is not transitive (`FloatCompare.AlmostEqualsIsNotTransitive`); two steps make one
  if and only if they go to the same side of the middle or are short enough together
  (`FloatCompare.TransitiveIff`).
* A PageRank of 327675 or more wraps to the standard weight 1 (`Places.WeightsCollideIff`).
* A `QuerySlices` of at most one word keeps the query as typed, separators included; from two
  words on, slices are re-joined words.
* `fullTextMatch` and `doesMatch` end in an `assert (false)` when a spelling suggestion has no
  match; the model goes on as the code does with NDEBUG.

## Model

Paths are relative to the root of the OpenTREP repository.

| member | source | states |
|---|---|---|
| `Words.SeparatorsAreTheList` | opentrep/basic/Utilities.cpp:16-36 | the character ranges that the model tests are exactly the listed separators |
| `Words.TokeniseStringIntoWordList` | opentrep/basic/Utilities.cpp:16-36 | the loop pushes the maximal separator-free runs, in order |
| `Words.TokensSplitAtSeparator` | opentrep/basic/Utilities.cpp:16-36 | tokenising distributes over any cut at a separator |
| `Words.TokensAreWords` | opentrep/basic/Utilities.cpp:16-36 | every token is non-empty and separator-free |
| `Words.CreateStringFromWordList` | opentrep/basic/Utilities.cpp:40-100 | for every split index and direction, the moving-index loops give the join of the selected part |
| `Words.SplitPartsMakeThePhrase` | opentrep/basic/Utilities.cpp:40-100 | for 0 < k < n, prefix(k), a space and suffix(k) are the whole join |
| `Words.NoSplitInside` | opentrep/basic/Utilities.cpp:40-100 | at 0 both directions give the whole join; behind the list, the first one the join and the second one nothing |
| `Words.CreateStringCountingDown` | opentrep/bom/WordHolder.cpp:51-66 | the join with a counter going down agrees with the one going up |
| `Words.TokensOfJoin` | opentrep/basic/Utilities.cpp:16-100 | tokenising the join of separator-free words gives the words back |
| `Words.NormaliseIsIdempotent` | opentrep/basic/Utilities.cpp:16-100 | join after tokenise is idempotent, and keeps the tokens |
| `Words.JoinIsInjective` | opentrep/basic/Utilities.cpp:40-100 | no two word lists share a phrase |
| `StringPartitions.StringPartition.constructor` | opentrep/bom/StringPartition.cpp:17-20 | the object holds the groupings of the tokens, in the order of the enumeration |
| `StringPartitions.StringPartition.Init` | opentrep/bom/StringPartition.cpp:94-168 | the recursive constructor, which joins and re-tokenises at each level, leaves exactly the rendered groupings |
| `StringPartitions.GroupingsAreAllGroupings` | opentrep/bom/StringPartition.cpp:94-168 | a grouping is listed if and only if it cuts the words into contiguous non-empty pieces |
| `StringPartitions.GroupingsCount` | opentrep/bom/StringPartition.cpp:94-168 | there are 2^(n-1) of them |
| `StringPartitions.GroupingsAreOrdered` | opentrep/bom/StringPartition.cpp:114-167 | they come in strict lexicographic order of the piece sizes |
| `StringPartitions.GroupingsAreDistinct` | opentrep/bom/StringPartition.cpp:114-167 | none comes twice |
| `StringPartitions.FirstAndLastGroupings` | opentrep/bom/StringPartition.cpp:94-168 | the single words come first, the whole phrase last |
| `StringPartitions.PiecesJoinBack` | opentrep/bom/StringPartition.cpp:114-167 | the strings of a partition join back to the normalised phrase |
| `StringPartitions.RenderIsInjective` | opentrep/bom/StringPartition.cpp:114-167 | two groupings of the same words are never written the same way, even with repeated words |
| `StringPartitions.PartitionListsEachGroupingOnce` | opentrep/bom/StringPartition.cpp:94-168 | for every phrase, as lists of strings: sound, complete, 2^(n-1) entries, no two alike, each joining back |
| `QuerySlicing.QuerySlices.constructor` | opentrep/bom/QuerySlices.cpp:20-25 | the slices are the maximal linked runs of the query's words; at most one word makes one raw slice |
| `QuerySlicing.QuerySlices.Init` | opentrep/bom/QuerySlices.cpp:303-380 | same, for the method, early exit included |
| `QuerySlicing.QuerySlices.SliceWords` | opentrep/bom/QuerySlices.cpp:325-376 | the loop with its staging string and relative index pushes exactly the runs |
| `QuerySlicing.DoesMatch` | opentrep/bom/QuerySlices.cpp:118-300 | two words match exactly when the index has documents for both around a space, or for the correction of that string within a quarter of its length |
| `QuerySlicing.RunsIffSlicing` | opentrep/bom/QuerySlices.cpp:325-376 | the runs are the one decomposition with matches inside each piece and none across a boundary |
| `QuerySlicing.RunsCount` | opentrep/bom/QuerySlices.cpp:325-376 | one slice plus one for each non-matching gap |
| `QuerySlicing.SlicesCoverLinkedGroupings` | opentrep/bom/QuerySlices.cpp:325-376 | concatenating one partition per slice gives exactly the groupings of the whole query that cut at every non-matching gap |
| `QuerySlicing.ChoiceIsUnique` | opentrep/bom/QuerySlices.cpp:325-376 | different choices give different groupings |
| `QuerySlicing.SlicingShrinksTheSearch` | opentrep/bom/QuerySlices.cpp:325-376 | all slices together have no more entries than the unsliced query |
| `Levenshtein.GetDistance` | opentrep/bom/Levenshtein.cpp:13-108 | the early returns and the filled matrix both give the recurrence's corner |
| `Levenshtein.FillMatrix` | opentrep/bom/Levenshtein.cpp:43-104 | the nested loops fill every cell in place as the recurrence says |
| `Levenshtein.NextCell` | opentrep/bom/Levenshtein.cpp:64-101 | one cell from its neighbours, with the penalised transposition |
| `Levenshtein.DistanceIsOptimal` | opentrep/bom/Levenshtein.cpp:21-108 | the distance is attained by an edit script, and no script of matches, insertions, deletions, substitutions and inner swaps is cheaper |
| `Levenshtein.ScriptsCostAtLeast` | opentrep/bom/Levenshtein.cpp:43-104 | no way to continue a partial edit costs less than what the matrix has left |
| `Levenshtein.DistanceLaws` | opentrep/bom/Levenshtein.cpp:13-108 | symmetric, zero exactly on equal strings, between the length difference and the larger length |
| `Levenshtein.Steps` | opentrep/bom/Levenshtein.cpp:43-104 | neighbouring cells differ by at most 1, and a diagonal step is 0 or 1 |
| `Levenshtein.ExactSwapsSuffice` | opentrep/bom/Levenshtein.cpp:84-101 | the recurrence with exact swaps only gives the same matrix |
| `Levenshtein.PlainWithinTwice` | opentrep/bom/Levenshtein.cpp:43-104 | plain Levenshtein L without transposition satisfies d <= L <= 2d |
| `Levenshtein.RelaxedTriangleInequality` | opentrep/bom/Levenshtein.cpp:13-108 | d(a, c) is at most twice d(a, b) + d(b, c) |
| `TriangleInequality.AdjacentSwapCosts` | opentrep/bom/Levenshtein.cpp:84-101 | for every string and position, swapping two different neighbours costs 1, and 2 at the front |
| `TriangleInequality.InsertionCosts` | opentrep/bom/Levenshtein.cpp:43-104 | for every string and position, one inserted character costs 1 |
| `TriangleInequality.TriangleWithoutSwaps` | opentrep/bom/Levenshtein.cpp:84-101 | the triangle inequality for all a, b and c when the transposition branch meets equal characters only |
| `TriangleInequality.DetourThrough` | opentrep/bom/Levenshtein.cpp:84-101 | any two different neighbours behind the first character of b give a detour of 2 for a way of at least 3 |
| `TriangleInequality.NoDetourIff` | opentrep/bom/Levenshtein.cpp:13-108 | no detour through b is cheaper than the direct way if and only if b has no two different neighbours behind its first character |
| `TriangleInequality.TriangleInequalityFails` | opentrep/bom/Levenshtein.cpp:13-108 | "xca", "xac" and "xabc" break the triangle inequality; NoDetourIff says when it holds |
| `Filtering.RTrim` | opentrep/bom/Filter.cpp:72-93 | recursion drops the words behind the last relevant one |
| `Filtering.LTrim` | opentrep/bom/Filter.cpp:97-118 | recursion drops the words before the first relevant one |
| `Filtering.TrimmedIsTheLongestCore` | opentrep/bom/Filter.cpp:122-128 | what remains is the longest contiguous part that opens and closes with a relevant word; nothing when no word is relevant |
| `Filtering.TrimOrderIsIrrelevant` | opentrep/bom/Filter.cpp:122-128 | right-then-left gives the same words |
| `Filtering.TrimPhrase` | opentrep/bom/Filter.cpp:131-141 | the phrase-level trim is tokenise, trim, join |
| `Filtering.TrimPhraseIsIdempotent` | opentrep/bom/Filter.cpp:131-141 | trimming a phrase twice is trimming it once |
| `Filtering.KeepIsRelevance` | opentrep/bom/Filter.cpp:144-179 | against the empty phrase, keeping a word is its relevance at 3 letters |
| `Filtering.KeepIff` | opentrep/bom/Filter.cpp:144-179 | for any phrase, a word is kept exactly when it is not empty and is the phrase, or has 3 letters and is not black-listed |
| `ScoreBoards.ScoreBoard.SetScore` | opentrep/bom/ScoreBoard.cpp:54-147 | the whole new map: only the given type changes, with the code match and envelope scores translated |
| `ScoreBoards.ScoreBoard.CalculateCombinedWeight` | opentrep/bom/ScoreBoard.cpp:186-219 | the loop multiplies the individual scores, and stores the product under its own type |
| `ScoreBoards.CombinedWeightIs` | opentrep/bom/ScoreBoard.cpp:186-219 | the product over the map in any order, absent types counting as 1 |
| `ScoreBoards.RecomputingChangesNothing` | opentrep/bom/ScoreBoard.cpp:186-219 | a stored combined weight does not enter the next one |
| `Results.Result.AddDocument` | opentrep/bom/Result.cpp:141-188 | a document enters the list and the map with separate, equal score boards; its percentage is that of LookedUpPercentage |
| `Results.Result.FillResult` | opentrep/bom/Result.cpp:191-202 | all the hits, in order |
| `Results.Result.FullTextMatch` | opentrep/bom/Result.cpp:515-553 | the filtered look-up leaves the matched string, the flag, the edit distance and the scores of the hits |
| `Results.Result.SearchIndex` | opentrep/bom/Result.cpp:314-512 | the two-step look-up leaves the string, the hits, the flag and the edit distance of LookUpFindsIff and LookUpIsConsistent |
| `Results.LookUpFindsIff` | opentrep/bom/Result.cpp:314-512 | something is found exactly when the index has documents for the query, or for the suggestion within a quarter of its length; the matched string is the query if it has documents, and the suggestion otherwise |
| `Results.LookUpIsConsistent` | opentrep/bom/Result.cpp:314-512 | the hits are those of the matched string, the recorded edit distance is the one between the query and it, and an exact match takes precedence |
| `RequestInterpreters.LookedUpPercentage` | opentrep/bom/Result.cpp:141-188 | the percentage that a document starts with, times d^3 for a query corrected at distance d, is the one of the index |
| `HitWeights.CodeMatchIff` | opentrep/bom/Result.cpp:647-737 | a hit gets the full code match exactly when the query matches as it stands, is kept, and has one word of 3 letters or more outside the black list, which has 3 or 4 letters and is the code in capitals |
| `HitWeights.WordIsACode` | opentrep/bom/Result.cpp:647-737 | a word of 3 or 4 letters outside the black list is the code of any of its documents that has its letters in capitals |
| `HitWeights.HitWeighs` | opentrep/bom/ScoreBoard.cpp:54-219 | the final weight of any document found, times d^3 for a corrected query, is its percentage times a hundredth of its PageRank, times 1/1000 if it has an envelope, times 1100 if the query is its code |
| `Results.Result.SetScoreOnDocMap` | opentrep/bom/Result.cpp:586-605 | the map's score board of one document gets one score |
| `Results.Result.CalculateEnvelopeWeights` | opentrep/bom/Result.cpp:608-644 | every document gets its envelope score; list and map still agree |
| `Results.Result.CalculateCodeMatches` | opentrep/bom/Result.cpp:647-737 | every document gets 1 if the trimmed, uppercased query is its code and was not corrected, 0 otherwise; list and map still agree |
| `Results.Result.CalculatePageRanks` | opentrep/bom/Result.cpp:740-771 | every document gets its PageRank; list and map still agree |
| `Results.Result.CalculateCombinedWeights` | opentrep/bom/Result.cpp:783-892 | the best document is the first of the greatest positive weight and is in the map; without a match the weight is 100 for one kept word, 10^(-3n) otherwise |
| `Results.Result.RunPass` | opentrep/bom/Result.cpp:586-771 | any pass, in any order: the new scores, and list and map in agreement on every individual type |
| `Results.PassesCommute` | opentrep/bom/Result.cpp:608-771 | the passes commute, and repeating one changes nothing |
| `Results.BestIsTheFirstMaximum` | opentrep/bom/Result.cpp:783-843 | the running maximum is the first of the greatest weights, and exists exactly when some weight is positive |
| `Results.RecomputingKeepsTheBest` | opentrep/bom/Result.cpp:783-843 | combining again finds the same best document |
| `Results.Result.BestDocumentIsInTheMap` | opentrep/bom/Result.cpp:845-892 | the best document of positive weight is found in the map, with its data |
| `ResultHolders.WeightOf` | opentrep/bom/ResultHolder.cpp:161-205 | the product of the percentages, over 850^k for k >= 2 strings |
| `ResultHolders.ResultHolder.RunPass` | opentrep/bom/ResultHolder.cpp:109-145 | every result gets the pass, and the results stay separate |
| `ResultHolders.ResultHolder.CalculateCombinedWeights` | opentrep/bom/ResultHolder.cpp:161-205 | the holder's weight is that of the best weights of its results |
| `ResultCombinations.ResultCombination.CalculateAllWeights` | opentrep/bom/ResultCombination.cpp:125-226 | the passes and the combination give every holder the weight of its final scores |
| `ResultCombinations.ResultCombination.ChooseBestMatchingResultHolder` | opentrep/bom/ResultCombination.cpp:229-269 | selects the first holder of the greatest weight if that is positive, and leaves the selection alone otherwise |
| `RequestInterpreters.AddUnmatchedWord` | opentrep/command/RequestInterpreter.cpp:50-68 | a single kept word is added to list and set unless it is in the set already |
| `RequestInterpreters.SearchWord` | opentrep/command/RequestInterpreter.cpp:162-187 | one string: its result, and its report when nothing matches |
| `RequestInterpreters.SearchPartition` | opentrep/command/RequestInterpreter.cpp:143-188 | one partition: a holder with the results of its strings, sharing nothing |
| `RequestInterpreters.SearchString` | opentrep/command/RequestInterpreter.cpp:131-205 | all the partitions: one holder each, and the words reported |
| `RequestInterpreters.UnmatchedWordsOfAPhrase` | opentrep/command/RequestInterpreter.cpp:131-205 | although every partition revisits the words, the report is exactly the distinct kept words without a match, in order of first appearance |
| `RequestInterpreters.OnlyTheFirstSetReports` | opentrep/command/RequestInterpreter.cpp:131-205 | after the single words, no partition reports anything new |
| `RequestInterpreters.FinalWeight` | opentrep/bom/ScoreBoard.cpp:73-84 | the weight after all the passes, as a product of the percentage, the PageRank, 0.001 for a document with an envelope and 1100 for a code match |
| `Rankings.SettledHasBest` | opentrep/bom/Result.cpp:783-892 | with positive percentages and PageRanks, every string settles on a positive weight: the asserts of the source hold |
| `Rankings.WeighPartitions` | opentrep/command/RequestInterpreter.cpp:514-517 | the holders' weights depend on the strings and the index alone |
| `Rankings.InterpretSlice` | opentrep/command/RequestInterpreter.cpp:507-522 | from a slice to the chosen holder, the first of the greatest weights; none exactly for a slice without words |
| `Rankings.CreatePlaces` | opentrep/command/RequestInterpreter.cpp:71-116 | the best documents of the chosen holder's matching results, in order |
| `Rankings.InterpretTravelRequest` | opentrep/command/RequestInterpreter.cpp:386-552 | over all slices: the chosen groupings together group every word of the query, in order and once, and never across a non-matching gap; the places are the best documents of their matching pieces, in order, and the words those reported |
| `RankingTheorems.CodeMatchOutweighs` | opentrep/bom/Result.cpp:647-737 | at no greater percentage, no document of PageRank at most 100 matches the weight of a valid code match of the default PageRank |
| `RankingTheorems.BestDocumentIsACodeMatch` | opentrep/basic/BasConst.cpp:112-130 | hence a result with such a code match settles on a code match |
| `RankingTheorems.KeptSinglesBeatEveryGrouping` | opentrep/bom/ResultHolder.cpp:161-205 | of the weights when nothing matches and all words are kept: the single words strictly beat every other partition |
| `RankingTheorems.SinglesAreChosenIff` | opentrep/bom/ResultCombination.cpp:229-269 | of the choice when nothing matches: the single words are chosen if and only if no contiguous part is cheaper together, for any number of words |
| `RankingTheorems.SinglesAreChosenIffKept` | opentrep/bom/Result.cpp:844-882 | from 2 to 42 words, that is if and only if the filter keeps every word |
| `RankingTheorems.UnmatchedWeightIs` | opentrep/bom/ResultHolder.cpp:161-205 | n unmatched words in k >= 2 pieces, m of them not a single kept word, weigh 100 (1000/850)^k / (100000^m 1000^n) |
| `RankingTheorems.UnknownPhraseChoice` | opentrep/bom/ResultCombination.cpp:229-269 | of the choice when nothing matches, 2 to 42 words: the single words if the filter keeps all of them, the whole phrase if it drops any |
| `WholePhrases.WholePhraseBeatsSplits` | opentrep/bom/ResultHolder.cpp:161-205 | with codes of at most 100x and other strings of at most 100, a phrase heavier than 100 x^min(c, 2) / 850^2 is chosen when no split has more than c codes among its strings, for c <= 1 or x <= 850 |
| `WholePhrases.CodesAreShortWords` | opentrep/bom/Result.cpp:647-737 | no grouping has more codes among its strings than the words have relevant ones of 3 or 4 letters |
| `WholePhrases.WholePhraseIsChosen` | opentrep/bom/ResultCombination.cpp:229-269 | hence a phrase heavier than that bound, for as many codes as it has such words, beats all its splits; the bound stays at 100 x^2 / 850^2 from two of them on |
| `WholePhrases.SplitBoundIs` | opentrep/bom/ResultHolder.cpp:161-205 | the bound is 100 / 850^2 without such a word, x times that with one, x^2 times that with more |
| `WholePhrases.HeavyCodesBeatThePhrase` | opentrep/bom/ResultHolder.cpp:161-205 | the ceiling of 850 is needed: any number of words from two on, each heavier than 85000, beats the phrase of them whatever that one matches |
| `WholePhrases.WholePhraseOfEqualRank` | opentrep/bom/ResultCombination.cpp:229-269 | a phrase that matches a valid document in full, of a PageRank from 0.1 to 59 that no code exceeds, is chosen, however many of its words are codes |
| `WholePhrases.WholePhraseWithoutCodes` | opentrep/bom/ResultHolder.cpp:161-205 | when no shorter part is a code, a match of 1% with the default PageRank is enough |
| `WholeQueries.PairsOfASliceMatch` | opentrep/bom/QuerySlices.cpp:325-376 | with the slicing and the results on one index, and no space in the black list, any two neighbours of a slice match something when they are looked up again |
| `WholeQueries.SlicesMatchSomething` | opentrep/command/RequestInterpreter.cpp:480-522 | hence no slice of several words is one that matches nothing |
| `WholeQueries.JuxtaposesIff` | opentrep/bom/QuerySlices.cpp:118-300 | the slicing keeps two words together if and only if looking them up as one string matches |
| `WholeQueries.BoundariesMatchNothing` | opentrep/bom/QuerySlices.cpp:325-376 | the last word of a slice and the first of the next match nothing together, corrected or not |
| `WholeQueries.RunsAreSinglesIff` | opentrep/bom/QuerySlices.cpp:325-376 | each word is a slice of its own if and only if no two neighbours match |
| `WholeQueries.UnlinkedQueryIsReadWordByWord` | opentrep/command/RequestInterpreter.cpp:386-552 | then the chosen groupings are the single words, whatever the filter drops, and the places the best documents of the words that match, in order |
| `WholeQueries.UnlinkedQueryReports` | opentrep/command/RequestInterpreter.cpp:386-552 | and the reported words are the unknown ones, as often as they come |
| `WholeQueries.QueryReports` | opentrep/command/RequestInterpreter.cpp:131-205 | over a whole query, each unknown word is reported once for each slice that it stands in, and no other word is |
| `WholeQueries.NoWordIsReportedTwiceIff` | opentrep/command/RequestInterpreter.cpp:131-205 | no word is reported twice if and only if no unknown word stands in two slices |
| `WholeQueries.AWordIsReportedTwice` | opentrep/command/RequestInterpreter.cpp:131-205 | "xyz paris xyz" on an index of Paris alone |
| `RankingTheorems.RatioIsAtMostOne` | opentrep/bom/ResultHolder.cpp:161-205 | the weight of any unmatched grouping against the single words, piece by piece |
| `WordCombinations.WordCombinationHolder.constructor` | opentrep/bom/WordCombinationHolder.cpp:18-20 | the list is the ordered set of contiguous parts, then the middle removals |
| `WordCombinations.WordCombinationHolder.Init` | opentrep/bom/WordCombinationHolder.cpp:87-174 | same, for the method and its early exit |
| `WordCombinations.WordCombinationHolder.PushGaps` | opentrep/bom/WordCombinationHolder.cpp:140-173 | the `!=` loops stop, and push one entry per length and place of the gap |
| `WordCombinations.PartitionStringsAreSpans` | opentrep/bom/WordCombinationHolder.cpp:93-116 | the strings of all the partitions are exactly the contiguous parts of the phrase |
| `WordCombinations.CollectStrings` | opentrep/bom/StringPartition.cpp:171-193 | the nested loops collect every string of every partition |
| `WordCombinations.ListOf` | opentrep/bom/StringPartition.cpp:195-203 | browsing an ordered set lists each element once, in lexicographic order |
| `WordCombinations.LessIff` | opentrep/bom/StringPartition.cpp:195-203 | the order of the listing: at the first difference, one string ends or has the smaller character |
| `WordCombinations.ListingIsUnique` | opentrep/bom/WordCombinationHolder.cpp:118-129 | there is one such list |
| `WordCombinations.CalculateUniqueCombinations` | opentrep/bom/StringPartition.cpp:171-206 | the ordered, duplicate-free list of the contiguous parts |
| `WordCombinations.AllGapEndsAreThePrefixSuffixPairs` | opentrep/bom/WordCombinationHolder.cpp:140-173 | the pairs of the loops are those of a proper prefix and a proper suffix with a gap between them, each once |
| `WordCombinations.AllGapEndsCount` | opentrep/bom/WordCombinationHolder.cpp:140-173 | there are (n-1)(n-2)/2 of them |
| `WordCombinations.AllGapsAreThePrefixSuffixPairs` | opentrep/bom/WordCombinationHolder.cpp:140-173 | index by index, the entries are what those distinct pairs leave of the words, so that the multiplicity of every string is known |
| `WordCombinations.TokensOfGap` | opentrep/bom/WordCombinationHolder.cpp:150-165 | an entry tokenises to the words around the gap |
| `Places.WeightsCollideIff` | opentrep/bom/Place.cpp:457-465 | the 16-bit weight of a PageRank is the standard weight if and only if the PageRank is at least 327675 |
| `PlaceTerms.PageRankWeightIs` | opentrep/bom/Place.cpp:457-465 | in the k-th step of five points of PageRank the weight is k + 2, and the last two of the 65536 steps wrap to 0 and 1 |
| `PlaceTerms.DecimalReads` | opentrep/bom/Place.cpp:445-696 | the term of a Geonames ID reads as that number, digit by digit from the left |
| `PlaceTerms.DetailTermIff` | opentrep/bom/Place.cpp:445-696 | item by item of the record, what is a term of the PageRank weight, and nothing else is |
| `PlaceTerms.StandardTermIff` | opentrep/bom/Place.cpp:296-696 | the same for the standard weight: a name, alone or followed by a space and a detail or feature name; a combination of its words; each also normalised |
| `PlaceTerms.SpellingIff` | opentrep/bom/Place.cpp:445-696 | the same for the spelling dictionary |
| `Places.Place.ResetIndexSets` | opentrep/bom/Place.cpp:218-223 | all four sets are emptied |
| `Places.Place.GetTermSet` | opentrep/bom/Place.cpp:226-237 | a copy of the terms of a weight, empty if there are none |
| `Places.Place.AddTermSet` | opentrep/bom/Place.cpp:240-266 | the terms of a weight grow by a set, and those of other weights stay |
| `Places.Place.AddFeatureNames` | opentrep/bom/Place.cpp:269-293 | the weight gains the base name with each feature name |
| `Places.Place.AddNameToXapianSets` | opentrep/bom/Place.cpp:296-442 | although the nested calls change the map behind the local copy, the weight gains exactly the terms of the name in both forms |
| `Places.WritingBack` | opentrep/bom/Place.cpp:690-694 | writing back stale copies of both sets loses no term, even when the two weights are the same |
| `Places.Place.BuildIndexSets` | opentrep/bom/Place.cpp:445-696 | each weight ends with what it had and every term ever inserted for it, and no other weight changes |
| `Places.Level2CodeIsIgnored` | opentrep/bom/Place.cpp:585-590 | no term and no spelling depends on the level 2 code of the location |
| `Places.Level2CodeIsATermIff` | opentrep/bom/Place.cpp:445-696 | a level 2 code without spaces is a term if and only if another detail of the location is that text, or it is the only word of a main name, or a word of another name, or what one of them is normalised to |
| `Places.Level2CodeCanBeLost` | opentrep/bom/Place.cpp:585-590 | a location whose level 2 code is no term |
| `Places.SpellingsAreTerms` | opentrep/bom/Place.cpp:445-696 | whatever enters the spelling dictionary is an indexed term |
| `Places.IndexRow` | opentrep/command/IndexBuilder.cpp:135-168 | one row is indexed from its own details, and leaves the place empty |
| `Places.BuildSearchIndex` | opentrep/command/IndexBuilder.cpp:118-171 | over a whole file with one shared place: the documents are those of the rows whose common name is not "NotAvailable", in the order of the file, each out of its row alone, and as many are counted |
| `Places.AvailableIsUnique` | opentrep/command/IndexBuilder.cpp:143-166 | which rows these are is determined by the file |
| `PlaceTerms.DocumentHolds` | opentrep/command/IndexBuilder.cpp:135-168 | the document of a row has exactly two weights, with exactly the terms of DetailTermIff and of StandardTermIff, and the spellings of SpellingIff |
| `Utf8.ToWideString` | opentrep/basic/UTF8Handler.cpp:37-95 | the loop with its fall-through switch decodes from index to index, and appends a NUL |
| `Utf8.StopsIffLands` | opentrep/basic/UTF8Handler.cpp:37-95 | the decoder stops without reading behind the string if and only if the lead bytes chain up to an exit |
| `Utf8.StuckIff` | opentrep/basic/UTF8Handler.cpp:37-95 | a turn of the loop leaves the index where it is exactly on the bytes F8 to FF |
| `Utf8.TrailingBytesAreAnnounced` | opentrep/basic/UTF8Handler.cpp:19-36 | the table of 256 entries counts the topmost bits of a lead byte that are set behind the first one |
| `Utf8.DecodingCanFail` | opentrep/basic/UTF8Handler.cpp:37-95 | it does not on F8 alone, where it stays, nor on C3 alone, which it steps over |
| `Utf8.ReachesTheSizeIff` | opentrep/basic/UTF8Handler.cpp:37-95 | on a NUL-free string, some turn of the loop has its index on the size if and only if the lead bytes chain up |
| `Utf8.ShortestFormLandsOnTheSize` | opentrep/basic/UTF8Handler.cpp:37-95 | on every string in the shortest form, from any index, the loop ends with its index exactly on the size |
| `Utf8.ToSimpleString` | opentrep/basic/UTF8Handler.cpp:98-148 | the loop encodes up to the first NUL, and appends a NUL |
| `Utf8.EncodingFollowsTheTable` | opentrep/basic/UTF8Handler.cpp:98-148 | the bytes of every code point are those of its row in the table of section 3 of RFC 3629: the marks, and the digits of the number |
| `Utf8.OtherCharactersAreCut` | opentrep/basic/UTF8Handler.cpp:98-148 | a negative character leaves its lowest byte, one above 0x10FFFF nothing |
| `Utf8.UnitRoundTrip` | opentrep/basic/UTF8Handler.cpp:98-148 | every code point from 1 to 0x10FFFF is encoded in its shortest form, and decoded to itself |
| `Utf8.WideRoundTrip` | opentrep/basic/UTF8Handler.cpp:19-148 | decode(encode(w)) is w and one trailing NUL |
| `Utf8.SequenceRoundTrip` | opentrep/basic/UTF8Handler.cpp:19-148 | a sequence survives decoding and encoding if and only if it is in its shortest form |
| `Utf8.ByteRoundTrip` | opentrep/basic/UTF8Handler.cpp:19-148 | encode(decode(s)) is s and one trailing NUL, for every shortest-form string |
| `FloatCompare.BiasedKeepsTheOrder` | opentrep/basic/float_utils_google.hpp:228-246 | at any width, the biased patterns are in the order of the numbers that the patterns stand for, and equal exactly when these are |
| `FloatCompare.DistanceIsAPseudoMetric` | opentrep/basic/float_utils_google.hpp:250-255 | the distance fits in the width, is symmetric, satisfies the triangle inequality, and is zero only for equal bits or the two zeros |
| `FloatCompare.AlmostEqualsIsConvex` | opentrep/basic/float_utils_google.hpp:213-220 | reflexive except on NaNs, symmetric, and what lies between almost equal numbers is almost equal to them |
| `FloatCompare.ChainDrifts` | opentrep/basic/float_utils_google.hpp:205-255 | k almost equal steps span at most 4k units |
| `FloatCompare.TransitiveIff` | opentrep/basic/float_utils_google.hpp:213-255 | for every width: two almost equal steps make one if and only if both ends lie on the same side of the middle or the steps are at most 4 units together |
| `FloatCompare.AlmostEqualsIsNotTransitive` | opentrep/basic/float_utils_google.hpp:213-220 | the patterns 0, 4 and 8 at every width; TransitiveIff says when it is |
| `FloatCompare.FourUnits` | opentrep/basic/float_utils_google.hpp:205-220 | at every width, zero is almost equal to patterns up to 4, and not from 5 on |
| `FloatCompare.NansAreAboveInfinity` | opentrep/basic/float_utils_google.hpp:195-203 | the patterns that compare as no number are those above the infinities |
| `FloatCompare.OneIsOne` | opentrep/basic/float_utils_google.hpp:228-246 | the pattern that WholeNumbersAgainstZero takes for 1 stands for 1 |
| `FloatCompare.WholeNumbersAgainstZero` | opentrep/bom/ScoreBoard.cpp:54-104 | flags and identifiers are almost equal to zero only when they are zero, which is why the scores compare reals exactly |

## Left out

- ScoreBoards.ScoreBoard.SetScore: compares the score with 1 and 0 exactly, on reals, where the source compares doubles up to 4 units in the last place; the two agree on flags and identifiers (`FloatCompare.WholeNumbersAgainstZero`).
- RankingTheorems.CodeMatchOutweighs: on reals, without the rounding of IEEE doubles.
- Results.Result.SearchIndex: Xapian's query parser, matching, cut-offs and spelling dictionary are one deterministic oracle, whose hits have distinct positive document identifiers.
- QuerySlicing.QuerySlices.Init: unpunctuating and unquoting are functions given to the model.
- QuerySlicing.DoesMatch: the source asks for 20 documents here and for 30 in a result; the model asks for the same ones, since only their absence matters.
- WholePhrases.WholePhraseIsChosen: for two relevant words of 3 or 4 letters or more, x must not exceed 850; beyond, `WholePhrases.HeavyCodesBeatThePhrase` shows that codes can win.
- Places.Level2CodeIsATermIff: for codes that are not empty and hold no space; the source skips empty ones, and one with a space can also equal a pair of a name and a detail.
- Utf8.ToWideString: requires a string on which the decoder stops; on the others the source does not terminate or reads out of bounds.
- Rankings.InterpretTravelRequest: requires a query of one word at least, as the source asserts a best holder, and positive percentages and PageRanks, as the source asserts positive weights; a place is the data of its document, and the SQL path is left out.
- Places.Place.BuildIndexSets: requires a non-negative PageRank that the cast to 16 bits is defined on.
- Word counts above 32767, where the `short` indexes of the source wrap around.
- The black list of the filter: it is a parameter, and every theorem holds for all black lists, except that two theorems on slices ask for entries without spaces, as all those of the source are.
- The table of feature names and the transliterator: functions given to the model.
- The POR grammar (Boost.Spirit), the envelope and the other details of a location: a parsed record is an input.
- The SQL path of `interpretTravelRequest`, and parsing the data of a best document into `Place` and `Location` objects.
- The heuristic weights: their method is empty in the source, so that their type never enters a product.
- The tokeniser with the shorter separator list of `WordHolder::tokeniseDocIntoWordList`, which differs by its list only.
- Links back from results to holders, description strings, logging, JSON and Protobuf export, command-line tools and bindings.
- `XapianIndexManager`, random draws and file handling.
