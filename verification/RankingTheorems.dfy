/** What the constants of the scores were chosen for: which document of a result,
    and which partition of a slice, comes out first. */
module RankingTheorems {
  import opened Basics
  import opened Words
  import opened StringPartitions
  import opened Filtering
  import opened ScoreBoards
  import opened Results
  import opened ResultHolders
  import opened ResultCombinations
  import opened RequestInterpreters
  import opened Rankings

  // ---------------------------------------------------------------------
  // Within one result: codes come first

  predicate IsCodeMatch(q: string, index: Index, blackList: BlackList, i: nat) {
    var t := FullTextOf(index, q, blackList);
    i < |t.hits| && t.hasMatched && CodeFullyMatches(q, t.matched, blackList, t.hits[i].doc)
  }

  lemma CorrectionIsMonotone(a: real, b: real, editDistance: nat)
    requires 0.0 <= a <= b && b > 0.0
    ensures 0.0 <= CorrectedScore(a, editDistance) <= CorrectedScore(b, editDistance)
    ensures CorrectedScore(b, editDistance) > 0.0
  {
  }

  lemma CodeFactorWins(x: real, y: real, r: real, s: real, e: real, v: real, w: real)
    requires x > 0.0 && 0.0 <= y <= x && r >= 0.001 && s <= 1.0 && 0.0 <= e <= 1.0
    requires v == x * r * 1.0 * 1100.0 && w == y * s * e * 1.0
    ensures v > w
  {
    var xr, ys := x * r, y * s;
    assert xr >= x * 0.001;
    assert ys <= y;
    var yse := ys * e;
    if ys >= 0.0 {
      assert yse <= ys;
    } else {
      assert yse <= 0.0;
    }
  }

  lemma CodeHitOutweighs(a: Hit, b: Hit, editDistance: nat)
    requires a.percent > 0.0 && 0.0 <= b.percent <= a.percent
    requires a.doc.location.envelopeId == 0 && a.doc.location.pageRank >= DEFAULT_PAGE_RANK
    requires b.doc.location.pageRank <= 100.0
    ensures CombinedWeight(FinalScores(a, editDistance, true)) > CombinedWeight(FinalScores(b, editDistance, false))
  {
    hide CombinedWeight;
    hide CorrectedScore;
    FinalWeight(a, editDistance, true);
    FinalWeight(b, editDistance, false);
    CorrectionIsMonotone(b.percent, a.percent, editDistance);
    CodeFactorWins(CorrectedScore(a.percent, editDistance), CorrectedScore(b.percent, editDistance),
                   a.doc.location.pageRank / 100.0, b.doc.location.pageRank / 100.0,
                   if b.doc.location.envelopeId == 0 then 1.0 else 0.001,
                   CombinedWeight(FinalScores(a, editDistance, true)),
                   CombinedWeight(FinalScores(b, editDistance, false)));
  }

  /** A valid document whose code is the query, with at least the default
      PageRank, outweighs every other kind of document of no greater percentage. */
  lemma CodeMatchOutweighs(q: string, index: Index, blackList: BlackList, i: nat, j: nat)
    requires IsCodeMatch(q, index, blackList, i) && !IsCodeMatch(q, index, blackList, j)
    requires j < |FullTextOf(index, q, blackList).hits|
    requires var hits := FullTextOf(index, q, blackList).hits;
             && hits[i].percent > 0.0 && 0.0 <= hits[j].percent <= hits[i].percent
             && hits[i].doc.location.envelopeId == 0 && hits[i].doc.location.pageRank >= DEFAULT_PAGE_RANK
             && hits[j].doc.location.pageRank <= 100.0
    ensures var scores := Settled(q, index, blackList).scores; Weight(scores[i]) > Weight(scores[j])
  {
    var t := FullTextOf(index, q, blackList);
    SettledScores(q, index, blackList, i);
    SettledScores(q, index, blackList, j);
    CodeHitOutweighs(t.hits[i], t.hits[j], t.editDistance);
  }

  /** Hence the result settles on a document whose code is the query, if a valid
      one of the default PageRank is among those of the greatest percentage. */
  lemma BestDocumentIsACodeMatch(q: string, index: Index, blackList: BlackList, i: nat)
    requires IsCodeMatch(q, index, blackList, i)
    requires var hits := FullTextOf(index, q, blackList).hits;
             && hits[i].percent > 0.0
             && hits[i].doc.location.envelopeId == 0 && hits[i].doc.location.pageRank >= DEFAULT_PAGE_RANK
             && forall j | 0 <= j < |hits| ::
                  0.0 <= hits[j].percent <= hits[i].percent && hits[j].doc.location.pageRank <= 100.0
    ensures var scores := Settled(q, index, blackList).scores;
            exists k: nat :: IsCodeMatch(q, index, blackList, k) && IsFirstBest(scores, k, BestOf(scores))
  {
    var t, scores := FullTextOf(index, q, blackList), Settled(q, index, blackList).scores;
    SettledScores(q, index, blackList, i);
    FinalWeightIsPositive(t.hits[i], t.editDistance, true);
    BestIsTheFirstMaximum(scores);
    var k: nat :| IsFirstBest(scores, k, BestOf(scores));
    if !IsCodeMatch(q, index, blackList, k) {
      CodeMatchOutweighs(q, index, blackList, i, k);
    }
  }

  // ---------------------------------------------------------------------
  // Products

  function ProductOf(xs: seq<real>): (r: real)
    ensures (forall i | 0 <= i < |xs| :: xs[i] > 0.0) ==> r > 0.0
  {
    if xs == [] then 1.0 else Times(ProductOf(xs[..|xs| - 1]), xs[|xs| - 1])
  }

  lemma {:induction false} ProductConcat(a: seq<real>, b: seq<real>)
    ensures ProductOf(a + b) == Times(ProductOf(a), ProductOf(b))
  {
    if b == [] {
      assert a + b == a;
      TimesAssociates(ProductOf(a), 1.0, 1.0);
    } else {
      var init, x := b[..|b| - 1], b[|b| - 1];
      ProductConcat(a, init);
      assert (a + b)[..|a + b| - 1] == a + init;
      TimesAssociates(ProductOf(a), ProductOf(init), x);
      hide Times;
    }
  }

  lemma ProductHead(xs: seq<real>)
    requires xs != []
    ensures ProductOf(xs) == xs[0] * ProductOf(xs[1..])
  {
    hide Times;
    var x := xs[0];
    assert xs == [x] + xs[1..];
    ProductConcat([x], xs[1..]);
    assert ProductOf([x]) == Times(1.0, x) by {
      assert [x][..0] == [];
    }
    TimesAssociates(x, 1.0, 1.0);
    TimesIs(x, ProductOf(xs[1..]));
  }

  /** The share of a string in the weight of a partition of several. */
  function Share(weight: real): real {
    weight / 100.0 / ATTENUATION_FACTOR
  }

  function Shares(weights: seq<real>): (r: seq<real>)
    ensures |r| == |weights| && forall i | 0 <= i < |r| :: r[i] == Share(weights[i])
  {
    seq(|weights|, i requires 0 <= i < |weights| => Share(weights[i]))
  }

  lemma TotalStep(s: real, p: real, last: real)
    ensures 100.0 * (s * (last / 100.0 / 850.0)) * (850.0 * p) == 100.0 * s * p * (last / 100.0)
  {
    var sp := s * p;
    assert 100.0 * (s * (last / 100.0 / 850.0)) * (850.0 * p) == sp * last;
  }

  lemma {:induction false} TotalIsProduct(weights: seq<real>)
    ensures Total(weights) == 100.0 * ProductOf(Shares(weights)) * Pow(ATTENUATION_FACTOR, |weights|)
  {
    if weights != [] {
      var init, last := weights[..|weights| - 1], weights[|weights| - 1];
      TotalIsProduct(init);
      assert Shares(weights)[..|init|] == Shares(init);
      TotalStep(ProductOf(Shares(init)), Pow(ATTENUATION_FACTOR, |init|), last);
    }
  }

  lemma Cancel(x: real, y: real)
    requires y > 0.0
    ensures x * y / y == x
  {
  }

  lemma HolderWeightIsProduct(weights: seq<real>)
    requires |weights| >= 2
    ensures HolderWeight(weights) == 100.0 * ProductOf(Shares(weights))
  {
    TotalIsProduct(weights);
    Cancel(100.0 * ProductOf(Shares(weights)), Pow(ATTENUATION_FACTOR, |weights|));
  }

  // ---------------------------------------------------------------------
  // A slice that matches nothing: what the words cost, apart and together

  function WordCost(w: string, blackList: BlackList): real {
    if ShouldKeep("", w, blackList) then 850.0 else 85000000.0
  }

  function WordCosts(ws: seq<string>, blackList: BlackList): (r: seq<real>)
    ensures |r| == |ws| && forall i | 0 <= i < |r| :: r[i] == WordCost(ws[i], blackList)
  {
    seq(|ws|, i requires 0 <= i < |ws| => WordCost(ws[i], blackList))
  }

  /** What unmatched words cost as so many strings of a partition: 850 for each
      word, and 100000 times that for each word that the filter drops. */
  function ApartCost(ws: seq<string>, blackList: BlackList): (r: real)
    ensures r > 0.0
  {
    ProductOf(WordCosts(ws, blackList))
  }

  /** What they cost as one string of a partition of several. */
  function TogetherCost(ws: seq<string>): (r: real)
    ensures r > 0.0
  {
    85000.0 * Pow(1000.0, |ws|)
  }

  lemma ApartCostConcat(a: seq<string>, b: seq<string>, blackList: BlackList)
    ensures ApartCost(a + b, blackList) == ApartCost(a, blackList) * ApartCost(b, blackList)
  {
    hide ProductOf;
    hide WordCost;
    assert WordCosts(a + b, blackList) == WordCosts(a, blackList) + WordCosts(b, blackList);
    ProductConcat(WordCosts(a, blackList), WordCosts(b, blackList));
    TimesIs(ApartCost(a, blackList), ApartCost(b, blackList));
  }

  /** A single word costs the same apart and in its string. */
  function PieceCost(p: seq<string>, blackList: BlackList): (r: real)
    ensures r > 0.0
  {
    if |p| == 1 then ApartCost(p, blackList) else TogetherCost(p)
  }

  lemma ApartCostOfOne(w: string, blackList: BlackList)
    ensures ApartCost([w], blackList) == WordCost(w, blackList)
  {
    var costs := WordCosts([w], blackList);
    ProductHead(costs);
    assert costs[1..] == [];
  }

  lemma Inverse(x: real)
    requires x > 0.0
    ensures 1.0 / x / 100.0 / 850.0 == 1.0 / (85000.0 * x)
  {
  }

  lemma PieceShareIs(p: seq<string>, blackList: BlackList)
    requires AreWords(p) && p != []
    ensures Share(NoMatchWeight(Join(p), blackList)) == 1.0 / PieceCost(p, blackList)
  {
    TokensOfJoin(p);
    if |p| == 1 {
      assert p == [p[0]];
      ApartCostOfOne(p[0], blackList);
      assert Pow(1000.0, 1) == 1000.0 * Pow(1000.0, 0);
    } else {
      Inverse(Pow(1000.0, |p|));
    }
  }

  /** The weights of the strings of a grouping, when none of them matches. */
  function PieceWeights(g: Grouping, blackList: BlackList): (r: seq<real>)
    ensures |r| == |g| && forall i | 0 <= i < |g| :: r[i] == NoMatchWeight(Join(g[i]), blackList)
  {
    seq(|g|, i requires 0 <= i < |g| => NoMatchWeight(Join(g[i]), blackList))
  }

  /** How the weight of a grouping compares with the one of the single words. */
  function Ratio(g: Grouping, blackList: BlackList): real {
    ProductOf(Shares(PieceWeights(g, blackList))) * ApartCost(Flatten(g), blackList)
  }

  lemma Interleave(s: real, i: real, x: real, ix: real, a: real, b: real, ab: real)
    requires s > 0.0 && i == 1.0 / s && ix == i * x && ab == a * b
    ensures ix * ab == a / s * (x * b)
  {
    assert a / s == a * i;
    assert (i * x) * (a * b) == (a * i) * (x * b);
  }

  lemma RatioStep(g: Grouping, blackList: BlackList)
    requires g != [] && AreWords(g[0]) && g[0] != []
    ensures Ratio(g, blackList)
            == ApartCost(g[0], blackList) / PieceCost(g[0], blackList) * Ratio(g[1..], blackList)
  {
    hide ProductOf;
    hide ApartCost;
    hide PieceCost;
    hide Share;
    var xs := Shares(PieceWeights(g, blackList));
    ProductHead(xs);
    PieceShareIs(g[0], blackList);
    assert xs[1..] == Shares(PieceWeights(g[1..], blackList));
    ApartCostConcat(g[0], Flatten(g[1..]), blackList);
    Interleave(PieceCost(g[0], blackList), xs[0], ProductOf(xs[1..]), ProductOf(xs),
               ApartCost(g[0], blackList), ApartCost(Flatten(g[1..]), blackList), ApartCost(Flatten(g), blackList));
  }

  /** A piece of several words is worth no less apart. */
  predicate StaysApart(p: seq<string>, blackList: BlackList) {
    ApartCost(p, blackList) <= TogetherCost(p)
  }

  lemma Quotient(a: real, b: real, r: real, x: real)
    requires 0.0 < a <= b && 0.0 < r <= 1.0 && x == a / b * r
    ensures 0.0 < x <= 1.0 && (a < b || r < 1.0 ==> x < 1.0)
  {
    var q := a / b;
    assert q * b == a;
    assert 0.0 < q <= 1.0 && (a < b ==> q < 1.0);
    assert q * r <= r && q * r > 0.0;
    if q < 1.0 {
      assert q * r < r;
    }
  }

  lemma RatioStaysBelow(g: Grouping, blackList: BlackList)
    requires g != [] && AreWords(g[0]) && g[0] != [] && 0.0 < Ratio(g[1..], blackList) <= 1.0
    requires ApartCost(g[0], blackList) <= PieceCost(g[0], blackList)
    ensures 0.0 < Ratio(g, blackList) <= 1.0
    ensures ApartCost(g[0], blackList) < PieceCost(g[0], blackList) || Ratio(g[1..], blackList) < 1.0 ==>
              Ratio(g, blackList) < 1.0
  {
    hide *;
    RatioStep(g, blackList);
    Quotient(ApartCost(g[0], blackList), PieceCost(g[0], blackList), Ratio(g[1..], blackList), Ratio(g, blackList));
  }

  lemma ApartCostOfNone(blackList: BlackList)
    ensures ApartCost([], blackList) == 1.0 && Ratio([], blackList) == 1.0
  {
    assert WordCosts([], blackList) == [] && PieceWeights([], blackList) == [] && Shares([]) == [];
  }

  /** When every longer piece is worth no less apart, no grouping beats the single
      words; and one with a longer piece that is worth more apart does not equal them. */
  lemma {:induction false} RatioIsAtMostOne(g: Grouping, blackList: BlackList)
    requires AreWords(Flatten(g)) && forall p | p in g :: p != []
    requires forall p | p in g && |p| >= 2 :: StaysApart(p, blackList)
    ensures 0.0 < Ratio(g, blackList) <= 1.0
    ensures (exists p :: p in g && |p| >= 2 && ApartCost(p, blackList) < TogetherCost(p)) ==> Ratio(g, blackList) < 1.0
    decreases |g|
  {
    if g == [] {
      ApartCostOfNone(blackList);
    } else {
      hide Ratio;
      hide ApartCost;
      hide TogetherCost;
      var p, rest := g[0], g[1..];
      assert p in g && forall q :: q in g <==> q == p || q in rest;
      assert AreWords(p) && AreWords(Flatten(rest)) by {
        assert forall w | w in p || w in Flatten(rest) :: w in Flatten(g);
      }
      hide Flatten;
      RatioIsAtMostOne(rest, blackList);
      RatioStaysBelow(g, blackList);
    }
  }

  lemma Neutral(a: real, b: real, r: real, x: real)
    requires a > 0.0 && a == b && x == a / b * r
    ensures x == r
  {
  }

  lemma RatioOfSingleWord(g: Grouping, blackList: BlackList)
    requires g != [] && AreWords(g[0]) && |g[0]| == 1
    ensures Ratio(g, blackList) == Ratio(g[1..], blackList)
  {
    hide Ratio;
    hide ApartCost;
    RatioStep(g, blackList);
    Neutral(ApartCost(g[0], blackList), PieceCost(g[0], blackList), Ratio(g[1..], blackList), Ratio(g, blackList));
  }

  lemma {:induction false} RatioOfSingles(ws: seq<string>, blackList: BlackList)
    requires AreWords(ws)
    ensures Ratio(Singletons(ws), blackList) == 1.0
  {
    var g := Singletons(ws);
    if ws == [] {
      ApartCostOfNone(blackList);
    } else {
      assert g[0] == [ws[0]] && ws[0] in ws;
      assert g[1..] == Singletons(ws[1..]);
      RatioOfSingles(ws[1..], blackList);
      hide Ratio;
      RatioOfSingleWord(g, blackList);
    }
  }

  // ---------------------------------------------------------------------
  // A slice that matches nothing: the weights of its partitions

  /** No contiguous part of the words matches anything. The slices of several words that
      interpretTravelRequest searches are never like that (WholeQueries). */
  ghost predicate NothingMatches(ws: seq<string>, index: Index, blackList: BlackList) {
    forall i, j | 0 <= i < j <= |ws| :: !FullTextOf(index, Join(ws[i..j]), blackList).hasMatched
  }

  lemma UnmatchedPieceWeights(ws: seq<string>, g: Grouping, index: Index, blackList: BlackList)
    requires IsGrouping(g, ws) && NothingMatches(ws, index, blackList)
    ensures StringWeights(Render(g), index, blackList) == PieceWeights(g, blackList)
  {
    forall k | 0 <= k < |g|
      ensures StringWeight(Join(g[k]), index, blackList) == NoMatchWeight(Join(g[k]), blackList)
    {
      var i := PieceIsAPart(g, k);
      assert g[k] in g;
      assert !FullTextOf(index, Join(ws[i..i + |g[k]|]), blackList).hasMatched;
    }
  }

  lemma Divide(w: real, p: real, a: real, r: real)
    requires a > 0.0 && w == 100.0 * p && r == p * a
    ensures w == 100.0 * r / a
  {
    Cancel(w, a);
  }

  lemma SplitWeight(ws: seq<string>, g: Grouping, index: Index, blackList: BlackList)
    requires IsGrouping(g, ws) && NothingMatches(ws, index, blackList) && |g| >= 2
    ensures PartitionWeight(Render(g), index, blackList) == 100.0 * Ratio(g, blackList) / ApartCost(ws, blackList)
  {
    hide HolderWeight;
    hide ProductOf;
    hide Shares;
    hide ApartCost;
    hide PieceWeights;
    hide StringWeights;
    UnmatchedPieceWeights(ws, g, index, blackList);
    var weights := PieceWeights(g, blackList);
    HolderWeightIsProduct(weights);
    Divide(HolderWeight(weights), ProductOf(Shares(weights)), ApartCost(ws, blackList), Ratio(g, blackList));
  }

  lemma HolderWeightOfOne(weight: real)
    ensures HolderWeight([weight]) == weight
  {
    var weights := [weight];
    assert weights[..0] == [];
    assert Total(weights) == Total([]) * (weight / 100.0);
  }

  lemma WholeWeight(ws: seq<string>, index: Index, blackList: BlackList)
    requires ws != [] && NothingMatches(ws, index, blackList)
    ensures PartitionWeight(Render([ws]), index, blackList) == NoMatchWeight(Join(ws), blackList)
  {
    hide HolderWeight;
    hide NoMatchWeight;
    hide StringWeights;
    UnmatchedPieceWeights(ws, [ws], index, blackList);
    var weight := NoMatchWeight(Join(ws), blackList);
    assert PieceWeights([ws], blackList) == [weight];
    HolderWeightOfOne(weight);
  }

  lemma NoMatchWeightBound(q: string, blackList: BlackList)
    ensures 0.0 < NoMatchWeight(q, blackList) <= 100.0
  {
    PowIsAtLeastOne(1000.0, |Tokens(q)|);
    var p := Pow(1000.0, |Tokens(q)|);
    assert 1.0 / p * p == 1.0;
  }

  lemma NoMatchWeightOfSeveral(ws: seq<string>, blackList: BlackList)
    requires AreWords(ws) && |ws| >= 2
    ensures NoMatchWeight(Join(ws), blackList) == 1.0 / Pow(1000.0, |ws|)
  {
    TokensOfJoin(ws);
  }

  lemma SinglesWeight(ws: seq<string>, index: Index, blackList: BlackList)
    requires AreWords(ws) && NothingMatches(ws, index, blackList) && |ws| >= 2
    ensures PartitionWeight(ws, index, blackList) == 100.0 / ApartCost(ws, blackList) > 0.0
  {
    hide PartitionWeight;
    hide Ratio;
    hide ApartCost;
    RatioOfSingles(ws, blackList);
    FlattenSingletons(ws);
    assert Render(Singletons(ws)) == ws;
    SplitWeight(ws, Singletons(ws), index, blackList);
  }

  lemma CompareQuotients(r: real, a: real)
    requires a > 0.0
    ensures (100.0 * r / a <= 100.0 / a <==> r <= 1.0) && (100.0 * r / a < 100.0 / a <==> r < 1.0)
  {
    var x, y := 100.0 * r / a, 100.0 / a;
    assert x * a == 100.0 * r && y * a == 100.0;
    assert y > 0.0 && x == r * y;
    if r < 1.0 {
      assert r * y < y;
    } else if r > 1.0 {
      assert r * y > y;
    }
  }

  lemma SplitAgainstSingles(ws: seq<string>, g: Grouping, index: Index, blackList: BlackList)
    requires AreWords(ws) && IsGrouping(g, ws) && NothingMatches(ws, index, blackList) && |g| >= 2 && |ws| >= 2
    ensures var x, y := PartitionWeight(Render(g), index, blackList), PartitionWeight(ws, index, blackList);
            && (x <= y <==> Ratio(g, blackList) <= 1.0) && (x < y <==> Ratio(g, blackList) < 1.0)
  {
    hide PartitionWeight;
    hide Ratio;
    hide ApartCost;
    SplitWeight(ws, g, index, blackList);
    SinglesWeight(ws, index, blackList);
    CompareQuotients(Ratio(g, blackList), ApartCost(ws, blackList));
  }

  lemma CompareInverses(b: real, a: real)
    requires a > 0.0 && b > 0.0
    ensures (1.0 / b <= 100.0 / a <==> a <= 100.0 * b) && (1.0 / b < 100.0 / a <==> a < 100.0 * b)
  {
    var x, y := 1.0 / b, 100.0 / a;
    assert x * b == 1.0 && y * a == 100.0;
    var z := a * b;
    assert z > 0.0 && x * z == a && y * z == 100.0 * b;
    if x < y {
      assert x * z < y * z;
    } else if x > y {
      assert x * z > y * z;
    }
  }

  lemma WholeAgainstSingles(ws: seq<string>, index: Index, blackList: BlackList)
    requires AreWords(ws) && NothingMatches(ws, index, blackList) && |ws| >= 2
    ensures var x, y := PartitionWeight(Render([ws]), index, blackList), PartitionWeight(ws, index, blackList);
            && (x <= y <==> ApartCost(ws, blackList) <= 100.0 * Pow(1000.0, |ws|))
            && (x < y <==> ApartCost(ws, blackList) < 100.0 * Pow(1000.0, |ws|))
  {
    hide PartitionWeight;
    hide NoMatchWeight;
    hide ApartCost;
    WholeWeight(ws, index, blackList);
    NoMatchWeightOfSeveral(ws, blackList);
    SinglesWeight(ws, index, blackList);
    CompareInverses(Pow(1000.0, |ws|), ApartCost(ws, blackList));
  }

  // ---------------------------------------------------------------------
  // A slice that matches nothing: the choice

  /** The condition on the words: neither the whole phrase nor any shorter part
      of it is worth more as one string. It costs 850 for each word apart, and
      100000 times that for each word that the filter drops. */
  ghost predicate SinglesPrevail(ws: seq<string>, blackList: BlackList) {
    && ApartCost(ws, blackList) <= 100.0 * Pow(1000.0, |ws|)
    && forall i, j | 0 <= i && i + 2 <= j <= |ws| && j - i < |ws| :: StaysApart(ws[i..j], blackList)
  }

  lemma PrevailingSinglesAreBest(ws: seq<string>, g: Grouping, index: Index, blackList: BlackList)
    requires AreWords(ws) && IsGrouping(g, ws) && NothingMatches(ws, index, blackList) && |ws| >= 2
    requires SinglesPrevail(ws, blackList)
    ensures PartitionWeight(Render(g), index, blackList) <= PartitionWeight(ws, index, blackList)
  {
    hide PartitionWeight;
    hide Ratio;
    hide ApartCost;
    hide Pow;
    if |g| == 1 {
      OnePieceIsTheWhole(g, ws);
      WholeAgainstSingles(ws, index, blackList);
    } else {
      FlattenIsEmpty(g);
      forall p | p in g && |p| >= 2 ensures StaysApart(p, blackList) {
        var k :| 0 <= k < |g| && g[k] == p;
        PiecesAreShorter(g, k);
        var i := PieceIsAPart(g, k);
        assert StaysApart(ws[i..i + |p|], blackList);
      }
      RatioIsAtMostOne(g, blackList);
      SplitAgainstSingles(ws, g, index, blackList);
    }
  }

  lemma {:induction false} SinglesInFront(ws: seq<string>, g: Grouping, blackList: BlackList)
    requires AreWords(ws)
    ensures Ratio(Singletons(ws) + g, blackList) == Ratio(g, blackList)
  {
    hide Ratio;
    var s := Singletons(ws);
    if ws == [] {
      assert s + g == g;
    } else {
      assert s[0] == [ws[0]] && ws[0] in ws;
      assert (s + g)[1..] == Singletons(ws[1..]) + g;
      SinglesInFront(ws[1..], g, blackList);
      RatioOfSingleWord(s + g, blackList);
    }
  }

  lemma AtMostOne(a: real, b: real, r: real, x: real)
    requires a > 0.0 && b > 0.0 && r == 1.0 && x == a / b * r
    ensures x <= 1.0 <==> a <= b
  {
    assert x * b == a;
    if x > 1.0 {
      assert x * b > b;
    } else {
      assert x * b <= b;
    }
  }

  lemma RatioOfJoined(ws: seq<string>, i: nat, j: nat, blackList: BlackList)
    requires AreWords(ws) && i + 2 <= j <= |ws|
    ensures Ratio(Joined(ws, i, j), blackList) <= 1.0 <==> StaysApart(ws[i..j], blackList)
  {
    hide Ratio;
    hide ApartCost;
    hide TogetherCost;
    hide Flatten;
    var p, right := ws[i..j], ws[j..];
    var g := [p] + Singletons(right);
    SinglesInFront(ws[..i], g, blackList);
    RatioOfSingles(right, blackList);
    assert g[1..] == Singletons(right);
    RatioStep(g, blackList);
    AtMostOne(ApartCost(p, blackList), PieceCost(p, blackList), Ratio(g[1..], blackList), Ratio(g, blackList));
  }

  lemma IsListed(phrase: string, g: Grouping, index: Index, blackList: BlackList)
    requires IsGrouping(g, Tokens(phrase))
    requires var weights := PartitionWeights(Partition(phrase), index, blackList);
             forall i | 0 <= i < |weights| :: weights[i] <= weights[0]
    ensures Partition(phrase) != []
    ensures PartitionWeight(Render(g), index, blackList) <= PartitionWeight(Partition(phrase)[0], index, blackList)
  {
    hide PartitionWeight;
    var i := Position(g, Tokens(phrase));
    assert Partition(phrase)[i] == Render(g);
    assert PartitionWeights(Partition(phrase), index, blackList)[i]
        <= PartitionWeights(Partition(phrase), index, blackList)[0];
  }

  /** The single words, which come first among the partitions, are chosen exactly
      when the condition on the words holds. */
  lemma SinglesAreChosenIff(phrase: string, index: Index, blackList: BlackList)
    requires |Tokens(phrase)| >= 2 && NothingMatches(Tokens(phrase), index, blackList)
    ensures Partition(phrase) != [] && Partition(phrase)[0] == Tokens(phrase)
    ensures IsFirstMaximum(PartitionWeights(Partition(phrase), index, blackList), 0)
            <==> SinglesPrevail(Tokens(phrase), blackList)
  {
    var ws, ps := Tokens(phrase), Partition(phrase);
    var weights := PartitionWeights(ps, index, blackList);
    TokensAreWords(phrase);
    FirstPartitionIsTheWords(phrase);
    hide PartitionWeight;
    hide Groupings;
    hide ApartCost;
    SinglesWeight(ws, index, blackList);
    if SinglesPrevail(ws, blackList) {
      forall k | 0 <= k < |ps| ensures weights[k] <= weights[0] {
        GroupingsAreSound(ws, k);
        PrevailingSinglesAreBest(ws, Groupings(ws)[k], index, blackList);
      }
    }
    if IsFirstMaximum(weights, 0) {
      assert Flatten([ws]) == ws;
      IsListed(phrase, [ws], index, blackList);
      WholeAgainstSingles(ws, index, blackList);
      forall i, j | 0 <= i && i + 2 <= j <= |ws| && j - i < |ws| ensures StaysApart(ws[i..j], blackList) {
        var g := Joined(ws, i, j);
        JoinedIsAGrouping(ws, i, j);
        RatioOfJoined(ws, i, j, blackList);
        IsListed(phrase, g, index, blackList);
        SplitAgainstSingles(ws, g, index, blackList);
      }
    }
  }

  // ---------------------------------------------------------------------
  // When the filter keeps every word, and when it does not

  lemma CostHead(ws: seq<string>, blackList: BlackList)
    requires ws != []
    ensures ApartCost(ws, blackList) == WordCost(ws[0], blackList) * ApartCost(ws[1..], blackList)
  {
    hide ProductOf;
    hide WordCost;
    ProductHead(WordCosts(ws, blackList));
    assert WordCosts(ws, blackList)[1..] == WordCosts(ws[1..], blackList);
  }

  lemma {:induction false} KeptWordsCost(ws: seq<string>, blackList: BlackList)
    requires forall w | w in ws :: ShouldKeep("", w, blackList)
    ensures ApartCost(ws, blackList) == Pow(850.0, |ws|)
  {
    if ws == [] {
      ApartCostOfNone(blackList);
    } else {
      CostHead(ws, blackList);
      KeptWordsCost(ws[1..], blackList);
    }
  }

  lemma {:induction false} UnkeptWordsCost(ws: seq<string>, blackList: BlackList)
    ensures ApartCost(ws, blackList) >= Pow(850.0, |ws|)
    ensures (exists w :: w in ws && !ShouldKeep("", w, blackList)) ==>
              ApartCost(ws, blackList) >= 100000.0 * Pow(850.0, |ws|)
  {
    if ws == [] {
      ApartCostOfNone(blackList);
    } else {
      hide ApartCost;
      CostHead(ws, blackList);
      UnkeptWordsCost(ws[1..], blackList);
      assert forall w | w in ws :: w == ws[0] || w in ws[1..];
    }
  }

  lemma {:induction false} PowIsMonotone(n: nat)
    requires n > 0
    ensures Pow(850.0, n) < Pow(1000.0, n)
  {
    if n > 1 {
      PowIsMonotone(n - 1);
    } else {
      assert Pow(850.0, 0) == 1.0 == Pow(1000.0, 0);
    }
  }

  lemma KeptPieceCost(g: Grouping, p: seq<string>, blackList: BlackList)
    requires p in g && p != [] && forall w | w in Flatten(g) :: ShouldKeep("", w, blackList)
    ensures ApartCost(p, blackList) < TogetherCost(p)
  {
    hide ApartCost;
    var k :| 0 <= k < |g| && g[k] == p;
    forall w | w in p ensures ShouldKeep("", w, blackList) {
      PiecesAreInTheList(g, k, w);
    }
    KeptWordsCost(p, blackList);
    PowIsMonotone(|p|);
  }

  lemma {:induction false} SomePieceIsLonger(g: Grouping) returns (k: nat)
    requires (forall p | p in g :: p != []) && g != Singletons(Flatten(g))
    ensures k < |g| && |g[k]| >= 2
  {
    if g == [] {
      assert false;
    } else {
      assert g[0] in g;
      if |g[0]| >= 2 {
        k := 0;
      } else {
        var rest := g[1..];
        assert forall p | p in rest :: p in g;
        assert Flatten(g) == [g[0][0]] + Flatten(rest);
        assert g[0] == [g[0][0]];
        assert Singletons(Flatten(g)) == [g[0]] + Singletons(Flatten(rest));
        assert g == [g[0]] + rest;
        k := SomePieceIsLonger(rest);
        k := k + 1;
      }
    }
  }

  /** On a slice of several words that all pass the filter and match nothing, the
      single words beat every other grouping, strictly. */
  lemma KeptSinglesBeatEveryGrouping(ws: seq<string>, g: Grouping, index: Index, blackList: BlackList)
    requires AreWords(ws) && |ws| >= 2 && NothingMatches(ws, index, blackList)
    requires forall w | w in ws :: ShouldKeep("", w, blackList)
    requires IsGrouping(g, ws) && g != Singletons(ws)
    ensures PartitionWeight(Render(g), index, blackList) < PartitionWeight(ws, index, blackList)
  {
    hide PartitionWeight;
    hide Ratio;
    hide ApartCost;
    if |g| == 1 {
      OnePieceIsTheWhole(g, ws);
      KeptWordsCost(ws, blackList);
      PowIsMonotone(|ws|);
      WholeAgainstSingles(ws, index, blackList);
    } else {
      FlattenIsEmpty(g);
      var k := SomePieceIsLonger(g);
      forall p | p in g && |p| >= 2 ensures ApartCost(p, blackList) < TogetherCost(p) {
        KeptPieceCost(g, p, blackList);
      }
      assert g[k] in g;
      RatioIsAtMostOne(g, blackList);
      SplitAgainstSingles(ws, g, index, blackList);
    }
  }

  lemma PowOfSum(x: real, m: nat, n: nat, p: real, q: real)
    requires Pow(x, m) == p && Pow(x, n) == q
    ensures Pow(x, m + n) == p * q
  {
    hide Pow;
    PowAdds(x, m, n);
  }

  /** A power in terms of the cube, by doubling: 42 is 3 * (2 + 4 + 8). */
  lemma PowOfFortyTwo(x: real, x3: real, x6: real, x12: real, x18: real, x24: real, x42: real)
    requires Pow(x, 3) == x3
    requires x6 == x3 * x3 && x12 == x6 * x6 && x18 == x12 * x6 && x24 == x12 * x12 && x42 == x24 * x18
    ensures Pow(x, 42) == x42
  {
    hide Pow;
    PowOfSum(x, 3, 3, x3, x3);
    PowOfSum(x, 6, 6, x6, x6);
    PowOfSum(x, 12, 12, x12, x12);
    PowOfSum(x, 12, 6, x12, x6);
    PowOfSum(x, 24, 18, x24, x18);
  }

  lemma PowOfThree(x: real)
    ensures Pow(x, 3) == x * x * x
  {
    assert Pow(x, 0) == 1.0 && Pow(x, 1) == x && Pow(x, 2) == x * x;
  }

  lemma FortyTwo()
    ensures 1000.0 * Pow(850.0, 42) > Pow(1000.0, 42)
  {
    PowOfThree(850.0);
    PowOfThree(1000.0);
    hide Pow;
    var a3, b3 := 614125000.0, 1000000000.0;
    var a6, b6 := a3 * a3, b3 * b3;
    var a12, b12 := a6 * a6, b6 * b6;
    var a18, b18 := a12 * a6, b12 * b6;
    var a24, b24 := a12 * a12, b12 * b12;
    PowOfFortyTwo(850.0, a3, a6, a12, a18, a24, a24 * a18);
    PowOfFortyTwo(1000.0, b3, b6, b12, b18, b24, b24 * b18);
  }

  /** Up to the 42nd, the powers of 0.85 are above 1/1000. */
  lemma {:induction false} FortyTwoWords(n: nat)
    requires n <= 42
    ensures 1000.0 * Pow(850.0, n) > Pow(1000.0, n)
    decreases 42 - n
  {
    if n == 42 {
      FortyTwo();
    } else {
      FortyTwoWords(n + 1);
      assert Pow(850.0, n + 1) == 850.0 * Pow(850.0, n);
      assert Pow(1000.0, n + 1) == 1000.0 * Pow(1000.0, n);
    }
  }

  lemma KeptSinglesPrevail(ws: seq<string>, blackList: BlackList)
    requires ws != [] && forall w | w in ws :: ShouldKeep("", w, blackList)
    ensures SinglesPrevail(ws, blackList)
  {
    hide ApartCost;
    KeptWordsCost(ws, blackList);
    PowIsMonotone(|ws|);
    forall i, j | 0 <= i && i + 2 <= j <= |ws| ensures StaysApart(ws[i..j], blackList) {
      KeptWordsCost(ws[i..j], blackList);
      PowIsMonotone(j - i);
    }
  }

  /** From 2 to 42 words, the single words are chosen exactly when the filter
      keeps every one of them. */
  lemma SinglesAreChosenIffKept(phrase: string, index: Index, blackList: BlackList)
    requires 2 <= |Tokens(phrase)| <= 42 && NothingMatches(Tokens(phrase), index, blackList)
    ensures IsFirstMaximum(PartitionWeights(Partition(phrase), index, blackList), 0)
            <==> forall w | w in Tokens(phrase) :: ShouldKeep("", w, blackList)
  {
    var ws := Tokens(phrase);
    hide PartitionWeights;
    hide ApartCost;
    SinglesAreChosenIff(phrase, index, blackList);
    if forall w | w in ws :: ShouldKeep("", w, blackList) {
      KeptSinglesPrevail(ws, blackList);
    } else {
      UnkeptWordsCost(ws, blackList);
      FortyTwoWords(|ws|);
    }
  }

  // ---------------------------------------------------------------------
  // The weight of every grouping of a slice that matches nothing, in closed form

  /** A piece that is not a single word kept by the filter. */
  predicate IsLoose(p: seq<string>, blackList: BlackList) {
    |p| != 1 || !ShouldKeep("", p[0], blackList)
  }

  function LooseCount(g: Grouping, blackList: BlackList): nat {
    if g == [] then 0 else (if IsLoose(g[0], blackList) then 1 else 0) + LooseCount(g[1..], blackList)
  }

  const STEP := 1000.0 / 850.0
  const PENALTY := 1.0 / 100000.0

  /** What a grouping weighs, times 1000 for each of its words: 1000/850 for each
      piece, and 1/100000 for each loose one. */
  function Strength(g: Grouping, blackList: BlackList): real {
    ProductOf(Shares(PieceWeights(g, blackList))) * Pow(1000.0, |Flatten(g)|)
  }

  lemma PowOfOne(x: real)
    ensures Pow(x, 1) == x
  {
    assert Pow(x, 0) == 1.0;
  }

  lemma InverseTimes(x: real, cost: real, share: real, f: real)
    requires cost > 0.0 && f * cost == x && share == 1.0 / cost
    ensures share * x == f
  {
    assert share * cost == 1.0;
    assert share * (f * cost) == f * (share * cost);
  }

  lemma WordStrength(w: string, share: real, blackList: BlackList)
    requires share == 1.0 / WordCost(w, blackList)
    ensures share * 1000.0 == if ShouldKeep("", w, blackList) then STEP else STEP * PENALTY
  {
  }

  lemma TogetherCostIs(p: seq<string>)
    ensures TogetherCost(p) == 85000.0 * Pow(1000.0, |p|) && Pow(1000.0, |p|) > 0.0
  {
    hide Pow;
  }

  lemma TogetherStrength(x: real, cost: real, share: real)
    requires x > 0.0 && cost == 85000.0 * x && share == 1.0 / cost
    ensures share * x == STEP * PENALTY
  {
    InverseTimes(x, cost, share, STEP * PENALTY);
  }

  lemma PieceStrength(p: seq<string>, blackList: BlackList)
    requires AreWords(p) && p != []
    ensures Share(NoMatchWeight(Join(p), blackList)) * Pow(1000.0, |p|)
            == if IsLoose(p, blackList) then STEP * PENALTY else STEP
  {
    hide Share;
    hide NoMatchWeight;
    hide ApartCost;
    hide WordCost;
    hide TogetherCost;
    hide ShouldKeep;
    hide Join;
    hide Pow;
    PieceShareIs(p, blackList);
    var share, x := Share(NoMatchWeight(Join(p), blackList)), Pow(1000.0, |p|);
    if |p| == 1 {
      assert p == [p[0]];
      ApartCostOfOne(p[0], blackList);
      PowOfOne(1000.0);
      WordStrength(p[0], share, blackList);
    } else {
      TogetherCostIs(p);
      TogetherStrength(x, TogetherCost(p), share);
      assert share * x == STEP * PENALTY;
    }
  }

  lemma Exchange(i: real, x: real, ix: real, a: real, b: real, ab: real, f: real)
    requires ix == i * x && ab == a * b && i * a == f
    ensures ix * ab == f * (x * b)
  {
    assert (i * x) * (a * b) == (i * a) * (x * b);
  }

  lemma StrengthStep(g: Grouping, blackList: BlackList)
    requires g != [] && AreWords(g[0]) && g[0] != []
    ensures Strength(g, blackList)
            == (if IsLoose(g[0], blackList) then STEP * PENALTY else STEP) * Strength(g[1..], blackList)
  {
    hide ProductOf;
    hide IsLoose;
    hide Share;
    hide NoMatchWeight;
    hide Pow;
    var xs := Shares(PieceWeights(g, blackList));
    ProductHead(xs);
    assert xs[1..] == Shares(PieceWeights(g[1..], blackList));
    PieceStrength(g[0], blackList);
    PowAdds(1000.0, |g[0]|, |Flatten(g[1..])|);
    Exchange(xs[0], ProductOf(xs[1..]), ProductOf(xs), Pow(1000.0, |g[0]|), Pow(1000.0, |Flatten(g[1..])|),
             Pow(1000.0, |Flatten(g)|), if IsLoose(g[0], blackList) then STEP * PENALTY else STEP);
  }

  lemma StrengthOfNone(blackList: BlackList)
    ensures Strength([], blackList) == 1.0
  {
    assert PieceWeights([], blackList) == [] && Shares([]) == [];
  }

  lemma PowerStep(k: nat, m: nat, loose: bool, x: real, y: real)
    requires x == Pow(STEP, k) * Pow(PENALTY, m) && y == (if loose then STEP * PENALTY else STEP) * x
    ensures y == Pow(STEP, k + 1) * Pow(PENALTY, (if loose then 1 else 0) + m)
  {
    var p, q := Pow(STEP, k), Pow(PENALTY, m);
    assert Pow(STEP, k + 1) == STEP * p && Pow(PENALTY, 1 + m) == PENALTY * q;
    hide Pow;
    assert STEP * (p * q) == (STEP * p) * q;
    assert (STEP * PENALTY) * (p * q) == (STEP * p) * (PENALTY * q);
  }

  lemma StrengthGrows(g: Grouping, blackList: BlackList)
    requires g != [] && AreWords(g[0]) && g[0] != []
    requires Strength(g[1..], blackList) == Pow(STEP, |g| - 1) * Pow(PENALTY, LooseCount(g[1..], blackList))
    ensures Strength(g, blackList) == Pow(STEP, |g|) * Pow(PENALTY, LooseCount(g, blackList))
  {
    hide Strength;
    hide IsLoose;
    hide Pow;
    StrengthStep(g, blackList);
    PowerStep(|g| - 1, LooseCount(g[1..], blackList), IsLoose(g[0], blackList), Strength(g[1..], blackList),
              Strength(g, blackList));
  }

  lemma {:induction false} StrengthIs(g: Grouping, blackList: BlackList)
    requires AreWords(Flatten(g)) && forall p | p in g :: p != []
    ensures Strength(g, blackList) == Pow(STEP, |g|) * Pow(PENALTY, LooseCount(g, blackList))
    decreases |g|
  {
    hide Strength;
    hide IsLoose;
    if g == [] {
      StrengthOfNone(blackList);
    } else {
      var rest := g[1..];
      assert g[0] in g && forall q | q in rest :: q in g;
      assert AreWords(g[0]) && AreWords(Flatten(rest)) by {
        assert forall w | w in g[0] || w in Flatten(rest) :: w in Flatten(g);
      }
      hide Flatten;
      StrengthIs(rest, blackList);
      StrengthGrows(g, blackList);
    }
  }

  lemma UnmatchedWeight(ws: seq<string>, g: Grouping, index: Index, blackList: BlackList)
    requires IsGrouping(g, ws) && NothingMatches(ws, index, blackList)
    ensures PartitionWeight(Render(g), index, blackList) == HolderWeight(PieceWeights(g, blackList))
  {
    hide HolderWeight;
    hide PieceWeights;
    hide StringWeights;
    UnmatchedPieceWeights(ws, g, index, blackList);
  }

  lemma Rescale(g: Grouping, n: nat, w: real, blackList: BlackList)
    requires |g| >= 2 && n == |Flatten(g)| && w == HolderWeight(PieceWeights(g, blackList))
    ensures w * Pow(1000.0, n) == 100.0 * Strength(g, blackList)
  {
    hide HolderWeight;
    hide ProductOf;
    hide Shares;
    hide PieceWeights;
    hide Pow;
    hide Flatten;
    HolderWeightIsProduct(PieceWeights(g, blackList));
    var p, x := ProductOf(Shares(PieceWeights(g, blackList))), Pow(1000.0, n);
    assert 100.0 * p * x == 100.0 * (p * x);
  }

  lemma UnmatchedWeightIsStrength(ws: seq<string>, g: Grouping, index: Index, blackList: BlackList)
    requires AreWords(ws) && IsGrouping(g, ws) && NothingMatches(ws, index, blackList) && |g| >= 2
    ensures PartitionWeight(Render(g), index, blackList) * Pow(1000.0, |ws|) == 100.0 * Strength(g, blackList)
  {
    hide PartitionWeight;
    hide HolderWeight;
    hide Strength;
    hide NoMatchWeight;
    hide NothingMatches;
    hide AreWords;
    hide Pow;
    UnmatchedWeight(ws, g, index, blackList);
    var w := PartitionWeight(Render(g), index, blackList);
    Rescale(g, |ws|, w, blackList);
    assert w * Pow(1000.0, |ws|) == 100.0 * Strength(g, blackList);
  }

  /** A grouping into k pieces, m of them loose, weighs 100 (1000/850)^k / (100000^m 1000^n). */
  lemma UnmatchedWeightIs(ws: seq<string>, g: Grouping, index: Index, blackList: BlackList)
    requires AreWords(ws) && IsGrouping(g, ws) && NothingMatches(ws, index, blackList) && |g| >= 2
    ensures PartitionWeight(Render(g), index, blackList) * Pow(1000.0, |ws|)
            == 100.0 * (Pow(STEP, |g|) * Pow(PENALTY, LooseCount(g, blackList)))
  {
    hide PartitionWeight;
    hide Strength;
    hide LooseCount;
    hide Pow;
    UnmatchedWeightIsStrength(ws, g, index, blackList);
    StrengthIs(g, blackList);
  }

  // ---------------------------------------------------------------------
  // The other half: a dropped word makes the whole phrase win

  lemma {:induction false} SomePieceIsLoose(g: Grouping, w: string, blackList: BlackList)
    requires w in Flatten(g) && !ShouldKeep("", w, blackList)
    ensures LooseCount(g, blackList) >= 1
    decreases |g|
  {
    if w !in g[0] {
      SomePieceIsLoose(g[1..], w, blackList);
    }
  }

  lemma {:induction false} PenaltyIsAtMost(m: nat)
    requires m >= 1
    ensures 0.0 < Pow(PENALTY, m) <= PENALTY
  {
    if m == 1 {
      assert Pow(PENALTY, 0) == 1.0;
    } else {
      PenaltyIsAtMost(m - 1);
    }
  }

  lemma {:induction false} StepsAreQuotients(k: nat)
    ensures Pow(STEP, k) * Pow(850.0, k) == Pow(1000.0, k)
  {
    if k > 0 {
      StepsAreQuotients(k - 1);
      var x, y, z := Pow(STEP, k - 1), Pow(850.0, k - 1), Pow(1000.0, k - 1);
      assert (STEP * x) * (850.0 * y) == 1000.0 * (x * y);
    }
  }

  lemma SmallFactor(x: real, y: real, z: real)
    requires y > 0.0 && x * y == z && 1000.0 * y > z
    ensures x < 1000.0
  {
    assert x >= 1000.0 ==> x * y >= 1000.0 * y;
  }

  lemma FewSteps(k: nat)
    requires k <= 42
    ensures Pow(STEP, k) < 1000.0
  {
    StepsAreQuotients(k);
    FortyTwoWords(k);
    SmallFactor(Pow(STEP, k), Pow(850.0, k), Pow(1000.0, k));
  }

  lemma BelowTheWhole(w: real, x: real, s: real, p: real)
    requires x > 0.0 && s < 1000.0 && 0.0 < p <= PENALTY && w * x == 100.0 * (s * p)
    ensures w < 1.0 / x
  {
    assert s * p < 1000.0 * p;
    var y := 1.0 / x;
    assert y * x == 1.0;
    if w >= y {
      assert w * x >= y * x;
    }
  }

  lemma {:induction false} PiecesAreFew(g: Grouping)
    requires forall p | p in g :: p != []
    ensures |g| <= |Flatten(g)|
    decreases |g|
  {
    if g != [] {
      assert g[0] in g && forall p | p in g[1..] :: p in g;
      PiecesAreFew(g[1..]);
    }
  }

  lemma SplitsOfDroppedWords(ws: seq<string>, g: Grouping, w: string, index: Index, blackList: BlackList)
    requires AreWords(ws) && 2 <= |ws| <= 42 && IsGrouping(g, ws) && g != [ws]
    requires NothingMatches(ws, index, blackList) && w in ws && !ShouldKeep("", w, blackList)
    ensures PartitionWeight(Render(g), index, blackList) < PartitionWeight(Render([ws]), index, blackList)
  {
    hide PartitionWeight;
    hide NoMatchWeight;
    hide LooseCount;
    hide Pow;
    FlattenIsEmpty(g);
    if |g| == 1 {
      OnePieceIsTheWhole(g, ws);
    }
    PiecesAreFew(g);
    SomePieceIsLoose(g, w, blackList);
    WholeWeight(ws, index, blackList);
    NoMatchWeightOfSeveral(ws, blackList);
    UnmatchedWeightIs(ws, g, index, blackList);
    FewSteps(|g|);
    PenaltyIsAtMost(LooseCount(g, blackList));
    BelowTheWhole(PartitionWeight(Render(g), index, blackList), Pow(1000.0, |ws|), Pow(STEP, |g|),
                  Pow(PENALTY, LooseCount(g, blackList)));
  }

  /** From 2 to 42 words without a match, one dropped word makes the whole phrase win. */
  lemma DroppedWordChoosesTheWhole(phrase: string, w: string, index: Index, blackList: BlackList)
    requires 2 <= |Tokens(phrase)| <= 42 && NothingMatches(Tokens(phrase), index, blackList)
    requires w in Tokens(phrase) && !ShouldKeep("", w, blackList)
    ensures var ps := Partition(phrase);
            && ps != [] && ps[|ps| - 1] == [Join(Tokens(phrase))]
            && IsFirstMaximum(PartitionWeights(ps, index, blackList), |ps| - 1)
  {
    hide PartitionWeight;
    hide NoMatchWeight;
    var ws, ps := Tokens(phrase), Partition(phrase);
    TokensAreWords(phrase);
    FirstAndLastGroupings(ws);
    LastPartitionIsThePhrase(phrase);
    assert ps[|ps| - 1] == Render([ws]);
    hide Groupings;
    hide Tokens;
    WholeWeight(ws, index, blackList);
    NoMatchWeightBound(Join(ws), blackList);
    forall k | 0 <= k < |ps| - 1
      ensures PartitionWeight(ps[k], index, blackList) < PartitionWeight(ps[|ps| - 1], index, blackList)
    {
      GroupingsAreSound(ws, k);
      GroupingsAreDistinct(ws, k, |ps| - 1);
      SplitsOfDroppedWords(ws, Groupings(ws)[k], w, index, blackList);
    }
  }

  /** When nothing matches, from 2 to 42 words: the single words are chosen if the
      filter keeps them all, and the whole phrase if it drops any. */
  lemma UnknownPhraseChoice(phrase: string, index: Index, blackList: BlackList)
    requires 2 <= |Tokens(phrase)| <= 42 && NothingMatches(Tokens(phrase), index, blackList)
    ensures var ps := Partition(phrase);
            && ps != [] && ps[0] == Tokens(phrase) && ps[|ps| - 1] == [Join(Tokens(phrase))]
            && IsFirstMaximum(PartitionWeights(ps, index, blackList),
                              if forall w | w in Tokens(phrase) :: ShouldKeep("", w, blackList) then 0 else |ps| - 1)
  {
    hide *;
    var ws := Tokens(phrase);
    FirstPartitionIsTheWords(phrase);
    LastPartitionIsThePhrase(phrase);
    if forall w | w in ws :: ShouldKeep("", w, blackList) {
      SinglesAreChosenIffKept(phrase, index, blackList);
    } else {
      var w :| w in ws && !ShouldKeep("", w, blackList);
      DroppedWordChoosesTheWhole(phrase, w, index, blackList);
    }
  }
}
