/** What a document weighs in the end, out of the query, the index and the document
    alone (opentrep/bom/Result.cpp, opentrep/bom/ScoreBoard.cpp). */
module HitWeights {
  import opened Words
  import opened Filtering
  import opened ScoreBoards
  import opened Results
  import opened RequestInterpreters
  import opened RankingTheorems
  import Levenshtein

  // ---------------------------------------------------------------------
  // When a query is the code of a document

  /** Letter by letter: a small one of the ASCII table stands 32 places behind the capital. */
  predicate IsCapitalised(code: string, w: string) {
    && |code| == |w|
    && forall i | 0 <= i < |w| ::
         code[i] as int == w[i] as int - if 97 <= w[i] as int <= 122 then 32 else 0
  }

  lemma ToUpperIff(w: string, code: string)
    ensures ToUpper(w) == code <==> IsCapitalised(code, w)
  {
    var u := ToUpper(w);
    assert forall i | 0 <= i < |w| :: u[i] as int == w[i] as int - if 97 <= w[i] as int <= 122 then 32 else 0;
    if IsCapitalised(code, w) {
      assert forall i | 0 <= i < |w| :: u[i] as int == code[i] as int;
    }
  }

  /** The only word that is neither short nor black-listed stands at index k. */
  predicate IsOnlyRelevant(ws: seq<string>, k: nat, blackList: BlackList) {
    k < |ws| && forall j | 0 <= j < |ws| :: (|ws[j]| >= 3 && ws[j] !in blackList) <==> j == k
  }

  lemma TrimmedToOneIff(ws: seq<string>, blackList: BlackList)
    ensures var t := Trimmed(ws, 3, blackList);
            && (|t| == 1 <==> exists k: nat :: IsOnlyRelevant(ws, k, blackList))
            && (forall k: nat | IsOnlyRelevant(ws, k, blackList) :: t == [ws[k]])
  {
    var t := Trimmed(ws, 3, blackList);
    var lo, hi := TrimmedIsTheLongestCore(ws, 3, blackList);
    hide Trimmed;
    if |t| == 1 {
      forall j | 0 <= j < |ws| ensures (|ws[j]| >= 3 && ws[j] !in blackList) <==> j == lo {
        assert IsRelevant(ws[j], 3, blackList) ==> IsCore(ws, j, j + 1, 3, blackList);
      }
      assert IsOnlyRelevant(ws, lo, blackList);
    }
    forall k: nat | IsOnlyRelevant(ws, k, blackList) ensures t == [ws[k]] {
      assert IsCore(ws, k, k + 1, 3, blackList);
    }
  }

  /** All but one of the words of the query are short or black-listed, and that one has 3
      or 4 letters, which make the code in capitals. */
  ghost predicate IsCodeQuery(q: string, code: string, blackList: BlackList) {
    exists k: nat ::
      && IsOnlyRelevant(Tokens(q), k, blackList)
      && 3 <= |Tokens(q)[k]| <= 4 && IsCapitalised(code, Tokens(q)[k])
  }

  lemma CodeFullyMatchesIff(q: string, corrected: string, blackList: BlackList, doc: Document)
    ensures CodeFullyMatches(q, corrected, blackList, doc)
            <==> corrected == q && IsCodeQuery(q, doc.location.iataCode, blackList)
  {
    var ws := Tokens(q);
    var t := Trimmed(ws, 3, blackList);
    TrimmedPhraseTokens(q, 3, blackList);
    TrimmedToOneIff(ws, blackList);
    hide Trimmed;
    hide Tokens;
    if |t| == 1 {
      var k: nat :| IsOnlyRelevant(ws, k, blackList);
      assert Join(t) == ws[k];
      ToUpperIff(ws[k], doc.location.iataCode);
    }
    hide ToUpper;
    hide IsCapitalised;
  }

  /** A hit is a code match exactly when the query, kept by the filter, matches as it
      stands, and is the code of the document. */
  lemma CodeMatchIff(q: string, index: Index, blackList: BlackList, i: nat)
    ensures IsCodeMatch(q, index, blackList, i)
            <==> |q| >= 3 && q !in blackList && i < |index.search(q)|
                 && IsCodeQuery(q, index.search(q)[i].doc.location.iataCode, blackList)
  {
    LookUpFindsIff(index, q);
    LookUpIsConsistent(index, q);
    var t := FullTextOf(index, q, blackList);
    hide LookUp;
    if i < |t.hits| {
      CodeFullyMatchesIff(q, t.matched, blackList, t.hits[i].doc);
    }
    hide CodeFullyMatches;
    hide IsCodeQuery;
  }

  /** A word of 3 or 4 letters outside the black list is the code of a document that has
      its letters in capitals. */
  lemma WordIsACode(q: string, index: Index, blackList: BlackList, i: nat)
    requires IsWord(q) && 3 <= |q| <= 4 && q !in blackList && i < |index.search(q)|
    requires IsCapitalised(index.search(q)[i].doc.location.iataCode, q)
    ensures IsCodeMatch(q, index, blackList, i)
  {
    CodeMatchIff(q, index, blackList, i);
    TokensOfWord(q);
    hide Tokens;
    assert IsOnlyRelevant(Tokens(q), 0, blackList);
  }

  // ---------------------------------------------------------------------
  // The weight

  /** What the percentage of a hit is multiplied with: a hundredth of the PageRank, 1/1000
      for a closed place, and 1100 for the document whose code is the query. */
  ghost function Boost(q: string, corrected: string, hit: Hit, blackList: BlackList): real {
    (hit.doc.location.pageRank / 100.0)
    * (if hit.doc.location.envelopeId == 0 then 1.0 else 1.0 / 1000.0)
    * (if corrected == q && IsCodeQuery(q, hit.doc.location.iataCode, blackList) then 1100.0 else 1.0)
  }

  lemma Rearranged(c: real, r: real, e: real, m: real, cube: real, p: real)
    requires c * cube == p
    ensures c * r * e * m * cube == p * (r * e * m)
  {
    var x := r * e * m;
    assert c * r * e * m == c * x;
    assert c * x * cube == c * cube * x;
  }

  lemma SettledIs(q: string, index: Index, blackList: BlackList)
    ensures var v, t := Settled(q, index, blackList), FullTextOf(index, q, blackList);
            && v.corrected == t.matched && |v.scores| == |t.hits|
            && (t.hits != [] ==> t.hasMatched && t.hits == index.search(t.matched))
            && (t.hits != [] ==> t.editDistance == Levenshtein.Distance(q, t.matched))
            && (t.hits != [] ==> (t.editDistance == 0 <==> t.matched == q))
  {
    LookUpIsConsistent(index, q);
  }

  lemma WeightOfHit(q: string, corrected: string, hit: Hit, editDistance: nat, blackList: BlackList)
    requires editDistance == 0 <==> corrected == q
    ensures var d := editDistance as real;
            CombinedWeight(FinalScores(hit, editDistance, CodeFullyMatches(q, corrected, blackList, hit.doc)))
            * (if corrected == q then 1.0 else d * d * d)
            == hit.percent * Boost(q, corrected, hit, blackList)
  {
    hide CorrectedScore;
    hide CombinedWeight;
    hide FinalScores;
    hide CodeFullyMatches;
    hide IsCodeQuery;
    var codeMatches, d := CodeFullyMatches(q, corrected, blackList, hit.doc), editDistance as real;
    CodeFullyMatchesIff(q, corrected, blackList, hit.doc);
    FinalWeight(hit, editDistance, codeMatches);
    CorrectedTimesCube(hit.percent, editDistance);
    Rearranged(CorrectedScore(hit.percent, editDistance), hit.doc.location.pageRank / 100.0,
               if hit.doc.location.envelopeId == 0 then 1.0 else 0.001, if codeMatches then 1100.0 else 1.0,
               if corrected == q then 1.0 else d * d * d, hit.percent);
  }

  /** The final weight of every document that is found, times the cube of the number of
      errors in the query. */
  lemma HitWeighs(q: string, index: Index, blackList: BlackList, i: nat)
    requires i < |Settled(q, index, blackList).scores|
    ensures var v := Settled(q, index, blackList);
            var hits, d := index.search(v.corrected), Levenshtein.Distance(q, v.corrected) as real;
            && |v.scores| == |hits| && v.scores[i].0 == hits[i].doc
            && Weight(v.scores[i]) * (if v.corrected == q then 1.0 else d * d * d)
               == hits[i].percent * Boost(q, v.corrected, hits[i], blackList)
  {
    hide Settled;
    hide FullTextOf;
    hide CombinedWeight;
    hide FinalScores;
    hide CodeFullyMatches;
    hide Boost;
    hide Levenshtein.Distance;
    var t := FullTextOf(index, q, blackList);
    SettledIs(q, index, blackList);
    SettledScores(q, index, blackList, i);
    WeightOfHit(q, t.matched, t.hits[i], t.editDistance, blackList);
  }
}
