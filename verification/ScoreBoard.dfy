/** The scores of one document, by score type (opentrep/bom/ScoreBoard.cpp,
    opentrep/basic/ScoreType.cpp, opentrep/basic/BasConst.cpp). Scores are reals:
    a comparison within a few units in the last place is an equality here. */
module ScoreBoards {

  datatype ScoreType =
    | COMBINATION | XAPIAN_PCT | PAGE_RANK | PAX_NB | HEURISTIC | ENV_ID | CODE_FULL_MATCH

  type ScoreMap = map<ScoreType, real>

  const DEFAULT_PAGE_RANK := 0.1
  const DEFAULT_ENVELOPE_PCT := DEFAULT_PAGE_RANK
  const DEFAULT_MODIFIED_MATCHING_PCT := 100.0
  const DEFAULT_FULL_CODE_MATCH_PCT := 11000.0 / DEFAULT_PAGE_RANK

  predicate IsIndividualScore(t: ScoreType) {
    t != COMBINATION
  }

  /** The score that is registered for the one given. */
  function Registered(t: ScoreType, score: real): real {
    match t
    case CODE_FULL_MATCH => if score == 1.0 then DEFAULT_FULL_CODE_MATCH_PCT else DEFAULT_MODIFIED_MATCHING_PCT
    case ENV_ID => if score == 0.0 then 100.0 else DEFAULT_ENVELOPE_PCT
    case _ => score
  }

  /** The types in the order of the score map. */
  const ORDER: seq<ScoreType> := [COMBINATION, XAPIAN_PCT, PAGE_RANK, PAX_NB, HEURISTIC, ENV_ID, CODE_FULL_MATCH]

  /** The proportion that a type contributes to the combined weight. */
  function Factor(m: ScoreMap, t: ScoreType): real {
    if t in m && IsIndividualScore(t) then m[t] / 100.0 else 1.0
  }

  function Product(m: ScoreMap, types: seq<ScoreType>): real {
    if types == [] then 100.0
    else Product(m, types[..|types| - 1]) * Factor(m, types[|types| - 1])
  }

  function CombinedWeight(m: ScoreMap): real {
    Product(m, ORDER)
  }

  class ScoreBoard {
    const queryString: string
    var scoreMap: ScoreMap

    constructor (queryString: string, t: ScoreType, score: real)
      ensures this.queryString == queryString
      ensures scoreMap == map[t := Registered(t, score)]
    {
      this.queryString := queryString;
      scoreMap := map[];
      new;
      SetScore(t, score);
    }

    constructor Copy(board: ScoreBoard)
      ensures queryString == board.queryString && scoreMap == board.scoreMap
    {
      queryString := board.queryString;
      scoreMap := board.scoreMap;
    }

    /** The score of a type, 0 when there is none. */
    function GetScore(t: ScoreType): real
      reads this
    {
      if t in scoreMap then scoreMap[t] else 0.0
    }

    method SetScore(t: ScoreType, score: real)
      modifies this
      ensures scoreMap == old(scoreMap)[t := Registered(t, score)]
      ensures GetScore(t) == Registered(t, score) && forall u | u != t :: GetScore(u) == old(GetScore(u))
    {
      var registered := score;
      if t == CODE_FULL_MATCH {
        registered := if registered == 1.0 then DEFAULT_FULL_CODE_MATCH_PCT else DEFAULT_MODIFIED_MATCHING_PCT;
      }
      if t == ENV_ID {
        registered := if registered == 0.0 then 100.0 else DEFAULT_ENVELOPE_PCT;
      }
      scoreMap := scoreMap[t := registered];
    }

    method CalculateCombinedWeight() returns (percentage: real)
      modifies this
      ensures percentage == CombinedWeight(old(scoreMap))
      ensures scoreMap == old(scoreMap)[COMBINATION := percentage]
    {
      percentage := 100.0;
      for i := 0 to |ORDER|
        invariant scoreMap == old(scoreMap)
        invariant percentage == Product(scoreMap, ORDER[..i])
      {
        assert ORDER[..i + 1][..i] == ORDER[..i];
        var t := ORDER[i];
        if t in scoreMap {
          var score := scoreMap[t];
          if IsIndividualScore(t) {
            percentage := percentage * (score / 100.0);
          }
        }
      }
      assert ORDER[..|ORDER|] == ORDER;
      SetScore(COMBINATION, percentage);
    }
  }

  lemma CombinedWeightInOrder(m: ScoreMap)
    ensures CombinedWeight(m) ==
            100.0 * Factor(m, XAPIAN_PCT) * Factor(m, PAGE_RANK) * Factor(m, PAX_NB) * Factor(m, HEURISTIC)
            * Factor(m, ENV_ID) * Factor(m, CODE_FULL_MATCH)
  {
    var o := ORDER;
    assert o[..6][..5] == o[..5] && o[..5][..4] == o[..4] && o[..4][..3] == o[..3];
    assert o[..3][..2] == o[..2] && o[..2][..1] == o[..1] && o[..1][..0] == [];
    assert Product(m, o[..1]) == 100.0;
    assert Product(m, o[..2]) == 100.0 * Factor(m, XAPIAN_PCT);
    assert Product(m, o[..3]) == Product(m, o[..2]) * Factor(m, PAGE_RANK);
    assert Product(m, o[..4]) == Product(m, o[..3]) * Factor(m, PAX_NB);
    assert Product(m, o[..5]) == Product(m, o[..4]) * Factor(m, HEURISTIC);
    assert Product(m, o[..6]) == Product(m, o[..5]) * Factor(m, ENV_ID);
  }

  /** A score as a proportion; 1 when there is none. */
  function Proportion(m: ScoreMap, t: ScoreType): real {
    if t in m then m[t] / 100.0 else 1.0
  }

  lemma FactorIs(m: ScoreMap, t: ScoreType)
    requires t != COMBINATION
    ensures Factor(m, t) == Proportion(m, t)
  {
  }

  /** The product, spelt out: the order of the map is irrelevant, and every type but the
      combined weight itself is in it. */
  lemma CombinedWeightIs(m: ScoreMap)
    ensures CombinedWeight(m) ==
            100.0 * Proportion(m, XAPIAN_PCT) * Proportion(m, PAGE_RANK) * Proportion(m, PAX_NB)
            * Proportion(m, HEURISTIC) * Proportion(m, ENV_ID) * Proportion(m, CODE_FULL_MATCH)
  {
    hide *;
    CombinedWeightInOrder(m);
    FactorIs(m, XAPIAN_PCT);
    FactorIs(m, PAGE_RANK);
    FactorIs(m, PAX_NB);
    FactorIs(m, HEURISTIC);
    FactorIs(m, ENV_ID);
    FactorIs(m, CODE_FULL_MATCH);
  }

  lemma {:induction false} ProductIgnoresTheCombination(m: ScoreMap, x: real, types: seq<ScoreType>)
    ensures Product(m[COMBINATION := x], types) == Product(m, types)
  {
    if types != [] {
      ProductIgnoresTheCombination(m, x, types[..|types| - 1]);
    }
  }

  /** Registering the combined weight does not change it: recomputing is harmless. */
  lemma RecomputingChangesNothing(m: ScoreMap, x: real)
    ensures CombinedWeight(m[COMBINATION := x]) == CombinedWeight(m)
  {
    ProductIgnoresTheCombination(m, x, ORDER);
  }
}
