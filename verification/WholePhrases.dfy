/** When a phrase that matches as a whole is chosen (opentrep/bom/ResultHolder.cpp,
    opentrep/bom/ResultCombination.cpp). */
module WholePhrases {
  import opened Basics
  import opened Words
  import opened StringPartitions
  import opened Filtering
  import opened ScoreBoards
  import opened Results
  import opened ResultHolders
  import opened ResultCombinations
  import opened RequestInterpreters
  import opened Rankings
  import opened RankingTheorems

  // ---------------------------------------------------------------------
  // What a string can weigh

  /** Percentages and PageRanks do not exceed 100. */
  ghost predicate IsScaled(index: Index) {
    forall q, i | 0 <= i < |index.search(q)| ::
      index.search(q)[i].percent <= 100.0 && index.search(q)[i].doc.location.pageRank <= 100.0
  }

  /** The string is the code of one of its documents. */
  ghost predicate IsCode(q: string, index: Index, blackList: BlackList) {
    exists i: nat :: IsCodeMatch(q, index, blackList, i)
  }

  /** No code weighs more than 100 x: 1100 times the greatest PageRank of a document
      whose code is the string, over 100. */
  ghost predicate IsCeiling(x: real, index: Index, blackList: BlackList) {
    x >= 1.0 && forall q, i: nat | IsCodeMatch(q, index, blackList, i) ::
      11.0 * FullTextOf(index, q, blackList).hits[i].doc.location.pageRank <= x
  }

  function WeightLimit(isCode: bool, x: real): real {
    if isCode then 100.0 * x else 100.0
  }

  lemma ScaledProduct(p: real, r: real, e: real, x: real)
    requires 0.0 < p <= 100.0 && 0.0 < r <= 1.0 && 0.0 < e <= 1.0 && 1100.0 * r <= x
    ensures p * r * e * 1100.0 <= 100.0 * x
  {
    var pr := p * r;
    assert 0.0 < pr <= 100.0 * r;
    assert pr * e <= pr;
  }

  lemma PlainProduct(p: real, r: real, e: real)
    requires 0.0 < p <= 100.0 && 0.0 < r <= 1.0 && 0.0 < e <= 1.0
    ensures p * r * e * 1.0 <= 100.0
  {
    var pr := p * r;
    assert 0.0 < pr <= p;
    assert pr * e <= pr;
  }

  lemma CorrectionLowers(score: real, editDistance: nat)
    requires score > 0.0
    ensures 0.0 < CorrectedScore(score, editDistance) <= score
  {
    if editDistance > 0 {
      var n := editDistance as real;
      assert n * n >= 1.0;
      assert n * n * n >= 1.0;
      var c := Cube(editDistance);
      assert score / c * c == score;
    }
  }

  lemma WeightBounds(hit: Hit, editDistance: nat, codeMatches: bool, x: real)
    requires 0.0 < hit.percent <= 100.0 && 0.0 < hit.doc.location.pageRank <= 100.0
    requires codeMatches ==> 11.0 * hit.doc.location.pageRank <= x
    ensures CombinedWeight(FinalScores(hit, editDistance, codeMatches)) <= WeightLimit(codeMatches, x)
  {
    FinalWeight(hit, editDistance, codeMatches);
    CorrectionLowers(hit.percent, editDistance);
    var p, r := CorrectedScore(hit.percent, editDistance), hit.doc.location.pageRank / 100.0;
    var e := if hit.doc.location.envelopeId == 0 then 1.0 else 0.001;
    if codeMatches {
      ScaledProduct(p, r, e, x);
    } else {
      PlainProduct(p, r, e);
    }
  }

  /** A string weighs at most 100, a code at most the ceiling. */
  lemma StringWeightIsLimited(q: string, x: real, index: Index, blackList: BlackList)
    requires IsHealthy(index) && IsScaled(index) && IsCeiling(x, index, blackList)
    ensures 0.0 < StringWeight(q, index, blackList) <= WeightLimit(IsCode(q, index, blackList), x)
  {
    SettledHasBest(q, index, blackList);
    var t, v := FullTextOf(index, q, blackList), Settled(q, index, blackList);
    if t.hasMatched {
      forall i | 0 <= i < |v.scores| ensures Weight(v.scores[i]) <= WeightLimit(IsCode(q, index, blackList), x) {
        SettledScores(q, index, blackList, i);
        WeightBounds(t.hits[i], t.editDistance, IsCodeMatch(q, index, blackList, i), x);
      }
      BestIsTheFirstMaximum(v.scores);
    } else {
      NoMatchWeightBound(q, blackList);
    }
  }

  /** PageRanks of at most 100 make 1100 a ceiling. */
  lemma ScaledCeiling(index: Index, blackList: BlackList)
    requires IsScaled(index)
    ensures IsCeiling(1100.0, index, blackList)
  {
    forall q, i: nat | IsCodeMatch(q, index, blackList, i)
      ensures 11.0 * FullTextOf(index, q, blackList).hits[i].doc.location.pageRank <= 1100.0
    {
      LookUpIsConsistent(index, q);
    }
  }

  // ---------------------------------------------------------------------
  // What a split can weigh

  function Count(bs: seq<bool>): (n: nat)
    ensures n <= |bs|
  {
    if bs == [] then 0 else Count(bs[..|bs| - 1]) + if bs[|bs| - 1] then 1 else 0
  }

  ghost function CodesOf(qs: seq<string>, index: Index, blackList: BlackList): (bs: seq<bool>)
    ensures |bs| == |qs| && forall i | 0 <= i < |qs| :: bs[i] == IsCode(qs[i], index, blackList)
  {
    seq(|qs|, i requires 0 <= i < |qs| => IsCode(qs[i], index, blackList))
  }

  /** The most that strings can weigh together, before the attenuation. */
  function Limit(x: real, count: nat): real {
    100.0 * Pow(x, count)
  }

  lemma LimitStep(x: real, total: real, count: nat, weight: real, isCode: bool, next: real)
    requires x >= 1.0 && 0.0 < total <= Limit(x, count) && 0.0 < weight <= WeightLimit(isCode, x)
    requires next == total * (weight / 100.0)
    ensures 0.0 < next <= Limit(x, count + if isCode then 1 else 0)
  {
    var p := Pow(x, count);
    assert Pow(x, count + 1) == x * p;
    hide Pow;
    ProductsGrow(total, 100.0 * p, weight / 100.0, if isCode then x else 1.0);
  }

  lemma {:induction false} TotalIsLimited(weights: seq<real>, codes: seq<bool>, x: real)
    requires |codes| == |weights| && x >= 1.0
    requires forall i | 0 <= i < |weights| :: 0.0 < weights[i] <= WeightLimit(codes[i], x)
    ensures 0.0 < Total(weights) <= Limit(x, Count(codes))
  {
    if weights == [] {
      assert Pow(x, 0) == 1.0;
    } else {
      hide Limit;
      var n := |weights| - 1;
      TotalIsLimited(weights[..n], codes[..n], x);
      LimitStep(x, Total(weights[..n]), Count(codes[..n]), weights[n], codes[n], Total(weights));
    }
  }

  function Few(c: nat): nat {
    if c < 2 then c else 2
  }

  /** The most that a split with at most c codes can weigh, under a ceiling: two codes
      are worth more than any other number of them, because each string costs 850. */
  function SplitBound(x: real, c: nat): real {
    100.0 * Pow(x, Few(c)) / Pow(850.0, 2)
  }

  /** Where the bound holds: a third code must not be worth more than it costs. */
  predicate IsBounded(x: real, c: nat) {
    x >= 1.0 && (c <= 1 || x <= 850.0)
  }

  lemma CrossProducts(x: real, xe: real, y: real, ye: real, xx: real, yy: real, z: real)
    requires 0.0 < x && 0.0 < y && 0.0 < xe <= ye && xx == x * xe && yy == y * ye && yy <= z
    ensures xx * y <= x * z
  {
    var xy := x * y;
    ProductsGrow(xy, xy, xe, ye);
    assert (x * xe) * y == xy * xe && x * (y * ye) == xy * ye;
    ProductsGrow(x, x, yy, z);
  }

  /** Behind the second code, each one is worth at most 850. */
  lemma MoreCodes(x: real, b: nat, k: nat)
    requires 1.0 <= x <= 850.0 && 2 <= b <= k
    ensures Pow(x, b) * Pow(850.0, 2) <= Pow(x, 2) * Pow(850.0, k)
  {
    hide Pow;
    var e := b - 2;
    PowGrowsWithTheBase(x, 850.0, e);
    PowGrowsWithTheBase(x, 850.0, 2);
    PowGrows(850.0, b, k);
    PowOfSum(x, 2, e, Pow(x, 2), Pow(x, e));
    PowOfSum(850.0, 2, e, Pow(850.0, 2), Pow(850.0, e));
    assert 2 + e == b;
    CrossProducts(Pow(x, 2), Pow(x, e), Pow(850.0, 2), Pow(850.0, e), Pow(x, b), Pow(850.0, b), Pow(850.0, k));
  }

  lemma FewCodes(x: real, b: nat, c: nat, k: nat)
    requires x >= 1.0 && b <= Few(c) && k >= 2
    ensures Pow(x, b) * Pow(850.0, 2) <= Pow(x, Few(c)) * Pow(850.0, k)
  {
    PowGrows(x, b, Few(c));
    PowGrows(850.0, 2, k);
    hide Pow;
    ProductsGrow(Pow(x, b), Pow(x, Few(c)), Pow(850.0, 2), Pow(850.0, k));
  }

  /** x^b / 850^k is at most x^Few(c) / 850^2. */
  lemma PowersCross(x: real, b: nat, c: nat, k: nat)
    requires b <= c && b <= k && k >= 2 && IsBounded(x, c)
    ensures Pow(x, b) * Pow(850.0, 2) <= Pow(x, Few(c)) * Pow(850.0, k)
  {
    hide Pow;
    if b <= Few(c) {
      FewCodes(x, b, c, k);
    } else {
      assert Few(c) == 2;
      MoreCodes(x, b, k);
    }
  }

  lemma QuotientsCompare(t: real, x: real, u: real, y: real)
    requires x > 0.0 && y > 0.0 && t * y <= u * x
    ensures t / x <= u / y
  {
    var q, r := t / x, u / y;
    assert q * x == t && r * y == u;
    var xy := x * y;
    assert q * xy == t * y && r * xy == u * x;
    assert q > r ==> q * xy > r * xy;
  }

  lemma CrossQuotients(t: real, a: real, x: real, b: real, y: real)
    requires 0.0 < t <= 100.0 * a && x > 0.0 && y > 0.0 && a * y <= b * x
    ensures t / x <= 100.0 * b / y
  {
    ProductsGrow(t, 100.0 * a, y, y);
    assert t * y <= 100.0 * (a * y) <= 100.0 * (b * x);
    QuotientsCompare(t, x, 100.0 * b, y);
  }

  lemma SplitCompares(weights: seq<real>, x: real, b: nat, c: nat)
    requires |weights| >= 2 && x >= 1.0 && 0.0 < Total(weights) <= 100.0 * Pow(x, b)
    requires Pow(x, b) * Pow(850.0, 2) <= Pow(x, Few(c)) * Pow(850.0, |weights|)
    ensures HolderWeight(weights) <= SplitBound(x, c)
  {
    hide Total;
    hide Pow;
    CrossQuotients(Total(weights), Pow(x, b), Pow(850.0, |weights|), Pow(x, Few(c)), Pow(850.0, 2));
  }

  lemma SplitWeighsAtMost(weights: seq<real>, codes: seq<bool>, x: real, c: nat)
    requires |weights| >= 2 && |codes| == |weights| && Count(codes) <= c && IsBounded(x, c)
    requires forall i | 0 <= i < |weights| :: 0.0 < weights[i] <= WeightLimit(codes[i], x)
    ensures HolderWeight(weights) <= SplitBound(x, c)
  {
    hide Total;
    hide Pow;
    hide HolderWeight;
    hide SplitBound;
    hide WeightLimit;
    TotalIsLimited(weights, codes, x);
    assert Count(codes) <= |weights|;
    PowersCross(x, Count(codes), c, |weights|);
    SplitCompares(weights, x, Count(codes), c);
  }

  // ---------------------------------------------------------------------
  // The choice

  /** No split of the words has more than c codes among its strings. */
  ghost predicate HasAtMostCodes(ws: seq<string>, c: nat, index: Index, blackList: BlackList) {
    forall g | IsGrouping(g, ws) && g != [ws] :: Count(CodesOf(Render(g), index, blackList)) <= c
  }

  lemma SplitWeighs(ws: seq<string>, g: Grouping, x: real, c: nat, index: Index, blackList: BlackList)
    requires IsHealthy(index) && IsScaled(index) && ws != [] && IsGrouping(g, ws) && g != [ws]
    requires IsCeiling(x, index, blackList) && IsBounded(x, c) && HasAtMostCodes(ws, c, index, blackList)
    ensures PartitionWeight(Render(g), index, blackList) <= SplitBound(x, c)
  {
    hide StringWeight;
    hide HolderWeight;
    hide SplitBound;
    hide IsCode;
    hide WeightLimit;
    FlattenIsEmpty(g);
    if |g| == 1 {
      OnePieceIsTheWhole(g, ws);
    }
    var qs := Render(g);
    forall k | 0 <= k < |qs|
      ensures 0.0 < StringWeight(qs[k], index, blackList) <= WeightLimit(IsCode(qs[k], index, blackList), x)
    {
      StringWeightIsLimited(qs[k], x, index, blackList);
    }
    SplitWeighsAtMost(StringWeights(qs, index, blackList), CodesOf(qs, index, blackList), x, c);
  }

  lemma WholeWeighs(ws: seq<string>, index: Index, blackList: BlackList)
    ensures PartitionWeight([Join(ws)], index, blackList) == StringWeight(Join(ws), index, blackList)
  {
    hide StringWeight;
    hide HolderWeight;
    assert StringWeights([Join(ws)], index, blackList) == [StringWeight(Join(ws), index, blackList)];
    HolderWeightOfOne(StringWeight(Join(ws), index, blackList));
  }

  /** A phrase that weighs more than any split with at most c codes can is chosen:
      it comes last among the partitions. */
  lemma WholePhraseBeatsSplits(phrase: string, x: real, c: nat, index: Index, blackList: BlackList)
    requires IsHealthy(index) && IsScaled(index) && Tokens(phrase) != []
    requires IsCeiling(x, index, blackList) && IsBounded(x, c) && HasAtMostCodes(Tokens(phrase), c, index, blackList)
    requires StringWeight(Join(Tokens(phrase)), index, blackList) > SplitBound(x, c)
    ensures var ps := Partition(phrase);
            && ps != [] && ps[|ps| - 1] == [Join(Tokens(phrase))]
            && IsFirstMaximum(PartitionWeights(ps, index, blackList), |ps| - 1)
  {
    hide StringWeight;
    hide HolderWeight;
    hide SplitBound;
    hide HasAtMostCodes;
    var ws, ps := Tokens(phrase), Partition(phrase);
    FirstAndLastGroupings(ws);
    LastPartitionIsThePhrase(phrase);
    WholeWeighs(ws, index, blackList);
    StringWeightIsLimited(Join(ws), x, index, blackList);
    forall k | 0 <= k < |ps| - 1 ensures PartitionWeight(ps[k], index, blackList) <= SplitBound(x, c) {
      GroupingsAreSound(ws, k);
      GroupingsAreDistinct(ws, k, |ps| - 1);
      SplitWeighs(ws, Groupings(ws)[k], x, c, index, blackList);
    }
  }

  // ---------------------------------------------------------------------
  // How many codes there can be

  /** The words that can be codes: the relevant ones of 3 or 4 letters. */
  function ShortWords(ws: seq<string>, blackList: BlackList): nat {
    if ws == [] then 0
    else (if 3 <= |ws[0]| <= 4 && ws[0] !in blackList then 1 else 0) + ShortWords(ws[1..], blackList)
  }

  lemma {:induction false} ShortWordsConcat(a: seq<string>, b: seq<string>, blackList: BlackList)
    ensures ShortWords(a + b, blackList) == ShortWords(a, blackList) + ShortWords(b, blackList)
  {
    if a == [] {
      assert a + b == b;
    } else {
      ShortWordsConcat(a[1..], b, blackList);
      assert (a + b)[1..] == a[1..] + b;
    }
  }

  lemma {:induction false} ShortWordIsCounted(ws: seq<string>, w: string, blackList: BlackList)
    requires w in ws && 3 <= |w| <= 4 && w !in blackList
    ensures ShortWords(ws, blackList) >= 1
  {
    if ws[0] != w {
      ShortWordIsCounted(ws[1..], w, blackList);
    }
  }

  /** A code, once trimmed, is a single word. */
  lemma CodeIsOneWord(p: seq<string>, index: Index, blackList: BlackList)
    requires AreWords(p) && IsCode(Join(p), index, blackList)
    ensures var t := Trimmed(p, 3, blackList); |t| == 1 && 3 <= |t[0]| <= 4
  {
    TokensOfJoin(p);
    TrimmedPhraseTokens(Join(p), 3, blackList);
  }

  lemma CodesHaveAShortWord(p: seq<string>, index: Index, blackList: BlackList)
    requires AreWords(p) && IsCode(Join(p), index, blackList)
    ensures ShortWords(p, blackList) >= 1
  {
    CodeIsOneWord(p, index, blackList);
    var t := Trimmed(p, 3, blackList);
    var lo, hi := TrimmedIsTheLongestCore(p, 3, blackList);
    assert |t| == 1 && t[0] == p[lo];
    ShortWordIsCounted(p, p[lo], blackList);
  }

  lemma {:induction false} CodesAreShortWords(g: Grouping, index: Index, blackList: BlackList)
    requires AreWords(Flatten(g))
    ensures Count(CodesOf(Render(g), index, blackList)) <= ShortWords(Flatten(g), blackList)
    decreases |g|
  {
    hide IsCode;
    if g != [] {
      var n := |g| - 1;
      var init, p := g[..n], g[n];
      assert g == init + [p];
      FlattenConcat(init, [p]);
      assert [p][1..] == [] && p + [] == p;
      assert AreWords(Flatten(init)) && AreWords(p) by {
        assert forall w | w in Flatten(init) || w in p :: w in Flatten(g);
      }
      hide Flatten;
      CodesAreShortWords(init, index, blackList);
      ShortWordsConcat(Flatten(init), p, blackList);
      var codes := CodesOf(Render(g), index, blackList);
      assert codes[..n] == CodesOf(Render(init), index, blackList) && codes[n] == IsCode(Join(p), index, blackList);
      if codes[n] {
        CodesHaveAShortWord(p, index, blackList);
      }
    }
  }

  /** A phrase is chosen as a whole when its weight exceeds the bound for as many codes
      as it has short words; from two of them on, however many there are, the bound is
      100 x^2 / 850^2, and x must not exceed 850. */
  lemma WholePhraseIsChosen(phrase: string, x: real, index: Index, blackList: BlackList)
    requires IsHealthy(index) && IsScaled(index) && Tokens(phrase) != [] && IsCeiling(x, index, blackList)
    requires var c := ShortWords(Tokens(phrase), blackList);
             IsBounded(x, c) && StringWeight(Join(Tokens(phrase)), index, blackList) > SplitBound(x, c)
    ensures var ps := Partition(phrase);
            && ps != [] && ps[|ps| - 1] == [Join(Tokens(phrase))]
            && IsFirstMaximum(PartitionWeights(ps, index, blackList), |ps| - 1)
  {
    hide StringWeight;
    hide SplitBound;
    hide CodesOf;
    hide IsCeiling;
    var ws := Tokens(phrase);
    TokensAreWords(phrase);
    forall g | IsGrouping(g, ws) && g != [ws]
      ensures Count(CodesOf(Render(g), index, blackList)) <= ShortWords(ws, blackList)
    {
      CodesAreShortWords(g, index, blackList);
    }
    WholePhraseBeatsSplits(phrase, x, ShortWords(ws, blackList), index, blackList);
  }

  /** The bound without any code, with one, and with two or more. */
  lemma SplitBoundIs(x: real, c: nat)
    ensures c == 0 ==> SplitBound(x, c) == 100.0 / 722500.0
    ensures c == 1 ==> SplitBound(x, c) == 100.0 * x / 722500.0
    ensures c >= 2 ==> SplitBound(x, c) == 100.0 * Pow(x, 2) / 722500.0
  {
    assert Pow(850.0, 2) == 722500.0 by {
      assert Pow(850.0, 1) == 850.0 * Pow(850.0, 0);
    }
    assert Pow(x, 1) == x * Pow(x, 0);
  }

  // ---------------------------------------------------------------------
  // The ceiling is where it must be

  lemma HeavyStep(total: real, p: real, weight: real)
    requires p > 0.0 && total >= 100.0 * p && weight > 85000.0
    ensures total * (weight / 100.0) > 100.0 * (850.0 * p)
  {
    var d := weight / 100.0 - 850.0;
    ProductsGrow(100.0 * p, total, 850.0 + d, 850.0 + d);
    assert p * d > 0.0;
    assert (100.0 * p) * (850.0 + d) == 100.0 * (850.0 * p) + 100.0 * (p * d);
  }

  lemma {:induction false} HeavyTotal(weights: seq<real>)
    requires forall i | 0 <= i < |weights| :: weights[i] > 85000.0
    ensures Total(weights) >= 100.0 * Pow(850.0, |weights|)
    ensures weights != [] ==> Total(weights) > 100.0 * Pow(850.0, |weights|)
  {
    if weights == [] {
      assert Pow(850.0, 0) == 1.0;
    } else {
      var n := |weights| - 1;
      HeavyTotal(weights[..n]);
      var p := Pow(850.0, n);
      assert Pow(850.0, n + 1) == 850.0 * p;
      HeavyStep(Total(weights[..n]), p, weights[n]);
    }
  }

  lemma QuotientAbove(t: real, p: real)
    requires p > 0.0 && t > 100.0 * p
    ensures t / p > 100.0
  {
    var q := t / p;
    assert q * p == t;
    assert q <= 100.0 ==> q * p <= 100.0 * p;
  }

  lemma HeavySplit(weights: seq<real>)
    requires |weights| >= 2 && forall i | 0 <= i < |weights| :: weights[i] > 85000.0
    ensures HolderWeight(weights) > 100.0
  {
    HeavyTotal(weights);
    hide Total;
    hide Pow;
    QuotientAbove(Total(weights), Pow(850.0, |weights|));
  }

  /** A phrase of several relevant words is no code. */
  lemma RelevantWordsAreNoCode(ws: seq<string>, index: Index, blackList: BlackList)
    requires AreWords(ws) && |ws| >= 2 && forall w | w in ws :: IsRelevant(w, 3, blackList)
    ensures !IsCode(Join(ws), index, blackList)
  {
    var lo, hi := TrimmedIsTheLongestCore(ws, 3, blackList);
    assert IsCore(ws, 0, |ws|, 3, blackList);
    if IsCode(Join(ws), index, blackList) {
      CodeIsOneWord(ws, index, blackList);
    }
  }

  lemma HeavyWordIsRelevant(w: string, index: Index, blackList: BlackList)
    requires IsHealthy(index) && IsScaled(index) && IsWord(w) && StringWeight(w, index, blackList) > 100.0
    ensures IsRelevant(w, 3, blackList)
  {
    hide StringWeight;
    ScaledCeiling(index, blackList);
    StringWeightIsLimited(w, 1100.0, index, blackList);
    assert Join([w]) == w;
    CodeIsOneWord([w], index, blackList);
    var lo, hi := TrimmedIsTheLongestCore([w], 3, blackList);
  }

  /** The phrase they make weighs at most 100. */
  lemma HeavyPhraseIsLight(ws: seq<string>, index: Index, blackList: BlackList)
    requires IsHealthy(index) && IsScaled(index) && AreWords(ws) && |ws| >= 2
    requires forall w | w in ws :: StringWeight(w, index, blackList) > 100.0
    ensures StringWeight(Join(ws), index, blackList) <= 100.0
  {
    hide StringWeight;
    hide IsHealthy;
    hide IsCode;
    forall w | w in ws ensures IsRelevant(w, 3, blackList) {
      HeavyWordIsRelevant(w, index, blackList);
    }
    RelevantWordsAreNoCode(ws, index, blackList);
    ScaledCeiling(index, blackList);
    StringWeightIsLimited(Join(ws), 1100.0, index, blackList);
  }

  /** Two codes or more, each above 850 times what another string can weigh, beat the
      phrase they make, however well that one matches. */
  lemma HeavyCodesBeatThePhrase(phrase: string, index: Index, blackList: BlackList)
    requires IsHealthy(index) && IsScaled(index) && |Tokens(phrase)| >= 2
    requires forall w | w in Tokens(phrase) :: StringWeight(w, index, blackList) > 85000.0
    ensures var ps := Partition(phrase);
            ps != [] && !IsFirstMaximum(PartitionWeights(ps, index, blackList), |ps| - 1)
  {
    hide StringWeight;
    hide HolderWeight;
    hide IsCode;
    hide IsHealthy;
    hide IsScaled;
    hide Tokens;
    hide Groupings;
    hide Join;
    var ws, ps := Tokens(phrase), Partition(phrase);
    TokensAreWords(phrase);
    HeavyPhraseIsLight(ws, index, blackList);
    FirstPartitionIsTheWords(phrase);
    FirstAndLastGroupings(ws);
    LastPartitionIsThePhrase(phrase);
    HeavySplit(StringWeights(ws, index, blackList));
    WholeWeighs(ws, index, blackList);
    assert PartitionWeights(ps, index, blackList)[0] > PartitionWeights(ps, index, blackList)[|ps| - 1];
  }

  // ---------------------------------------------------------------------
  // In terms of the documents

  predicate IsGoodHit(hit: Hit) {
    hit.percent >= 1.0 && hit.doc.location.envelopeId == 0 && hit.doc.location.pageRank >= DEFAULT_PAGE_RANK
  }

  /** A valid document of the phrase itself, with at least one percent and the
      default PageRank. */
  ghost predicate MatchesWell(q: string, index: Index, blackList: BlackList) {
    ShouldKeep("", q, blackList) && exists i :: 0 <= i < |index.search(q)| && IsGoodHit(index.search(q)[i])
  }

  lemma GoodHitWeighs(hit: Hit, editDistance: nat, codeMatches: bool)
    requires IsGoodHit(hit) && editDistance == 0
    ensures CombinedWeight(FinalScores(hit, editDistance, codeMatches)) >= 0.001
  {
    FinalWeight(hit, editDistance, codeMatches);
    var xr := hit.percent * (hit.doc.location.pageRank / 100.0);
    assert xr >= 0.001;
  }

  lemma WeightOfGoodMatch(q: string, index: Index, blackList: BlackList)
    requires MatchesWell(q, index, blackList)
    ensures StringWeight(q, index, blackList) >= 0.001
  {
    var i :| 0 <= i < |index.search(q)| && IsGoodHit(index.search(q)[i]);
    var t, v := FullTextOf(index, q, blackList), Settled(q, index, blackList);
    SettledScores(q, index, blackList, i);
    GoodHitWeighs(t.hits[i], t.editDistance, IsCodeMatch(q, index, blackList, i));
    BestIsTheFirstMaximum(v.scores);
  }

  lemma {:induction false} NoneIsCounted(bs: seq<bool>)
    requires forall i | 0 <= i < |bs| :: !bs[i]
    ensures Count(bs) == 0
  {
    if bs != [] {
      NoneIsCounted(bs[..|bs| - 1]);
    }
  }

  lemma NoPieceIsACode(ws: seq<string>, g: Grouping, index: Index, blackList: BlackList)
    requires ws != [] && IsGrouping(g, ws) && g != [ws]
    requires forall i, j | 0 <= i < j <= |ws| && j - i < |ws| :: !IsCode(Join(ws[i..j]), index, blackList)
    ensures Count(CodesOf(Render(g), index, blackList)) == 0
  {
    hide IsCode;
    FlattenIsEmpty(g);
    if |g| == 1 {
      OnePieceIsTheWhole(g, ws);
    }
    var codes := CodesOf(Render(g), index, blackList);
    forall k | 0 <= k < |codes| ensures !codes[k] {
      assert g[k] in g;
      PiecesAreShorter(g, k);
      var i := PieceIsAPart(g, k);
      assert g[k] == ws[i..i + |g[k]|];
    }
    NoneIsCounted(codes);
  }

  /** When no shorter part of the phrase is a code, one percent and the default
      PageRank are enough. */
  lemma WholePhraseWithoutCodes(phrase: string, index: Index, blackList: BlackList)
    requires IsHealthy(index) && IsScaled(index) && Tokens(phrase) != []
    requires var ws := Tokens(phrase);
             && MatchesWell(Join(ws), index, blackList)
             && forall i, j | 0 <= i < j <= |ws| && j - i < |ws| :: !IsCode(Join(ws[i..j]), index, blackList)
    ensures var ps := Partition(phrase);
            && ps != [] && ps[|ps| - 1] == [Join(Tokens(phrase))]
            && IsFirstMaximum(PartitionWeights(ps, index, blackList), |ps| - 1)
  {
    hide StringWeight;
    hide SplitBound;
    hide IsCode;
    hide MatchesWell;
    var ws := Tokens(phrase);
    forall g | IsGrouping(g, ws) && g != [ws] ensures Count(CodesOf(Render(g), index, blackList)) <= 0 {
      NoPieceIsACode(ws, g, index, blackList);
    }
    SplitBoundIs(1100.0, 0);
    ScaledCeiling(index, blackList);
    WeightOfGoodMatch(Join(ws), index, blackList);
    WholePhraseBeatsSplits(phrase, 1100.0, 0, index, blackList);
  }

  /** No document whose code is a string has a PageRank above p. */
  ghost predicate CodesAreRanked(p: real, index: Index, blackList: BlackList) {
    forall q, i: nat | IsCodeMatch(q, index, blackList, i) ::
      FullTextOf(index, q, blackList).hits[i].doc.location.pageRank <= p
  }

  predicate IsFullHit(hit: Hit, p: real) {
    hit.percent >= 100.0 && hit.doc.location.envelopeId == 0 && hit.doc.location.pageRank >= p
  }

  /** A valid document that matches the string in full, with a PageRank of at least p. */
  ghost predicate MatchesInFull(q: string, p: real, index: Index, blackList: BlackList) {
    ShouldKeep("", q, blackList) && exists i :: 0 <= i < |index.search(q)| && IsFullHit(index.search(q)[i], p)
  }

  lemma FullHitWeighs(hit: Hit, codeMatches: bool, p: real)
    requires IsFullHit(hit, p) && p > 0.0
    ensures CombinedWeight(FinalScores(hit, 0, codeMatches)) >= p
  {
    FinalWeight(hit, 0, codeMatches);
    var r := hit.doc.location.pageRank / 100.0;
    assert hit.percent * r >= 100.0 * r;
  }

  lemma WeightOfFullMatch(q: string, p: real, index: Index, blackList: BlackList)
    requires MatchesInFull(q, p, index, blackList) && p > 0.0
    ensures StringWeight(q, index, blackList) >= p
  {
    var i :| 0 <= i < |index.search(q)| && IsFullHit(index.search(q)[i], p);
    var t, v := FullTextOf(index, q, blackList), Settled(q, index, blackList);
    SettledScores(q, index, blackList, i);
    FullHitWeighs(t.hits[i], IsCodeMatch(q, index, blackList, i), p);
    BestIsTheFirstMaximum(v.scores);
  }

  lemma SquareIsAtMost(x: real, top: real)
    requires 0.0 < x <= top
    ensures Pow(x, 2) <= top * x
  {
    assert Pow(x, 2) == Times(x, Pow(x, 1)) && Pow(x, 1) == Times(x, Pow(x, 0));
    hide Pow;
    TimesAssociates(x, x, 1.0);
    TimesGrows(x, top, x, x);
    TimesIs(top, x);
  }

  lemma BoundIsAtMost(x: real, c: nat)
    requires 1.0 <= x <= 649.0
    ensures SplitBound(x, c) <= 64900.0 * x / 722500.0
  {
    SplitBoundIs(x, c);
    hide SplitBound;
    SquareIsAtMost(x, 649.0);
    hide Pow;
  }

  lemma RankBeatsTheBound(p: real, x: real, c: nat)
    requires DEFAULT_PAGE_RANK <= p <= 59.0 && x == 11.0 * p
    ensures p > 0.0 && p > SplitBound(x, c) && IsBounded(x, c)
  {
    hide SplitBound;
    BoundIsAtMost(x, c);
  }

  lemma RankIsCeiling(p: real, index: Index, blackList: BlackList)
    requires p >= DEFAULT_PAGE_RANK && CodesAreRanked(p, index, blackList)
    ensures IsCeiling(11.0 * p, index, blackList)
  {
    hide IsCodeMatch;
    hide FullTextOf;
  }

  /** Even when all of its words are codes, a phrase is chosen as a whole when it matches
      in full a document of no smaller PageRank than those of the codes, up to 59. */
  lemma WholePhraseOfEqualRank(phrase: string, p: real, index: Index, blackList: BlackList)
    requires IsHealthy(index) && IsScaled(index) && Tokens(phrase) != []
    requires DEFAULT_PAGE_RANK <= p <= 59.0 && CodesAreRanked(p, index, blackList)
    requires MatchesInFull(Join(Tokens(phrase)), p, index, blackList)
    ensures var ps := Partition(phrase);
            && ps != [] && ps[|ps| - 1] == [Join(Tokens(phrase))]
            && IsFirstMaximum(PartitionWeights(ps, index, blackList), |ps| - 1)
  {
    hide *;
    var whole, c := Join(Tokens(phrase)), ShortWords(Tokens(phrase), blackList);
    RankIsCeiling(p, index, blackList);
    RankBeatsTheBound(p, 11.0 * p, c);
    WeightOfFullMatch(whole, p, index, blackList);
    WholePhraseIsChosen(phrase, 11.0 * p, index, blackList);
  }
}
