/** Which grouping of a slice the weights choose
    (opentrep/bom/ResultHolder.cpp, opentrep/bom/Result.cpp, opentrep/bom/ResultCombination.cpp). */
module Rankings {
  import opened Basics
  import opened Words
  import opened StringPartitions
  import opened QuerySlicing
  import opened Filtering
  import opened ScoreBoards
  import opened Results
  import opened ResultHolders
  import opened ResultCombinations
  import opened RequestInterpreters

  /** The weight of a string, and the weight of a partition, out of the index alone. */
  function StringWeight(q: string, index: Index, blackList: BlackList): real {
    BestWeight(Settled(q, index, blackList), blackList)
  }

  function StringWeights(qs: seq<string>, index: Index, blackList: BlackList): (r: seq<real>)
    ensures |r| == |qs| && forall i | 0 <= i < |qs| :: r[i] == StringWeight(qs[i], index, blackList)
  {
    seq(|qs|, i requires 0 <= i < |qs| => StringWeight(qs[i], index, blackList))
  }

  /** What the strings of a partition settle on. */
  function StringPicks(qs: seq<string>, index: Index, blackList: BlackList): (r: seq<Pick>)
    ensures |r| == |qs| && forall i | 0 <= i < |qs| :: r[i] == PickOf(Settled(qs[i], index, blackList))
  {
    seq(|qs|, i requires 0 <= i < |qs| => PickOf(Settled(qs[i], index, blackList)))
  }

  function PartitionWeight(qs: seq<string>, index: Index, blackList: BlackList): real {
    HolderWeight(StringWeights(qs, index, blackList))
  }

  function PartitionWeights(partitions: seq<seq<string>>, index: Index, blackList: BlackList): (r: seq<real>)
    ensures |r| == |partitions|
    ensures forall i | 0 <= i < |r| :: r[i] == PartitionWeight(partitions[i], index, blackList)
  {
    seq(|partitions|, i requires 0 <= i < |partitions| => PartitionWeight(partitions[i], index, blackList))
  }

  // ---------------------------------------------------------------------
  // Every string settles on a positive weight

  lemma FinalWeightIsPositive(hit: Hit, editDistance: nat, codeMatches: bool)
    requires hit.percent > 0.0 && hit.doc.location.pageRank > 0.0
    ensures CombinedWeight(FinalScores(hit, editDistance, codeMatches)) > 0.0
  {
    FinalWeight(hit, editDistance, codeMatches);
    var c, r := CorrectedScore(hit.percent, editDistance), hit.doc.location.pageRank / 100.0;
    assert c > 0.0 && r > 0.0;
    assert c * r > 0.0;
  }

  lemma SettledHasBest(q: string, index: Index, blackList: BlackList)
    requires IsHealthy(index)
    ensures HasBest(Settled(q, index, blackList))
    ensures StringWeight(q, index, blackList) > 0.0
  {
    var t, v := FullTextOf(index, q, blackList), Settled(q, index, blackList);
    if t.hasMatched {
      SettledScores(q, index, blackList, 0);
      FinalWeightIsPositive(t.hits[0], t.editDistance, CodeFullyMatches(q, t.matched, blackList, t.hits[0].doc));
      BestIsTheFirstMaximum(v.scores);
    }
  }

  /** The passes treat each string on its own. */
  lemma PassesSettle(qs: seq<string>, index: Index, blackList: BlackList)
    ensures var vs := AfterPasses(AllLookedUp(qs, index, blackList), blackList);
            && |vs| == |qs| && (forall i | 0 <= i < |qs| :: vs[i] == Settled(qs[i], index, blackList))
            && BestWeights(vs, blackList) == StringWeights(qs, index, blackList)
            && PicksOf(vs) == StringPicks(qs, index, blackList)
  {
  }

  lemma {:induction false} TotalIsPositive(weights: seq<real>)
    requires forall i | 0 <= i < |weights| :: weights[i] > 0.0
    ensures Total(weights) > 0.0
  {
    if weights != [] {
      var init, last := weights[..|weights| - 1], weights[|weights| - 1];
      TotalIsPositive(init);
      assert Total(init) * (last / 100.0) > 0.0;
    }
  }

  lemma HolderWeightIsPositive(weights: seq<real>)
    requires weights != [] && forall i | 0 <= i < |weights| :: weights[i] > 0.0
    ensures HolderWeight(weights) > 0.0
  {
    TotalIsPositive(weights);
  }

  lemma AllSettledHaveBest(qs: seq<string>, index: Index, blackList: BlackList)
    requires IsHealthy(index)
    ensures AllHaveBest(AfterPasses(AllLookedUp(qs, index, blackList), blackList))
    ensures qs != [] <==> PartitionWeight(qs, index, blackList) > 0.0
  {
    PassesSettle(qs, index, blackList);
    forall i | 0 <= i < |qs|
      ensures HasBest(Settled(qs[i], index, blackList)) && StringWeight(qs[i], index, blackList) > 0.0
    {
      SettledHasBest(qs[i], index, blackList);
    }
    if qs != [] {
      HolderWeightIsPositive(StringWeights(qs, index, blackList));
    }
  }

  /** Some partition of a slice has a positive weight, unless the slice has no word. */
  lemma SomeWeightIsPositive(slice: string, index: Index, blackList: BlackList)
    requires IsHealthy(index)
    ensures var weights := PartitionWeights(Partition(slice), index, blackList);
            Tokens(slice) != [] <==> exists i :: 0 <= i < |weights| && weights[i] > 0.0
  {
    var ps := Partition(slice);
    if Tokens(slice) == [] {
      assert |ps| == 1 && ps[0] == [];
      AllSettledHaveBest(ps[0], index, blackList);
    } else {
      FirstAndLastGroupings(Tokens(slice));
      AllSettledHaveBest(ps[0], index, blackList);
      assert PartitionWeights(ps, index, blackList)[0] > 0.0;
    }
  }

  // ---------------------------------------------------------------------
  // One slice, from its words to the chosen partition

  /** The weights of the holders are those of their partitions. */
  method WeighPartitions(combination: ResultCombination, partitions: seq<seq<string>>, index: Index,
                         blackList: BlackList)
    requires IsHealthy(index) && combination.Valid() && |combination.resultHolderList| == |partitions|
    requires forall i | 0 <= i < |partitions| ::
               combination.resultHolderList[i].Views() == AllLookedUp(partitions[i], index, blackList)
    modifies combination.resultHolderList`combinedWeight, combination.Results(), combination.Boards()
    ensures combination.Weights() == PartitionWeights(partitions, index, blackList)
    ensures forall i | 0 <= i < |partitions| ::
              combination.resultHolderList[i].Picks() == StringPicks(partitions[i], index, blackList)
  {
    forall i | 0 <= i < |partitions|
      ensures PicksOf(AfterPasses(AllLookedUp(partitions[i], index, blackList), blackList))
              == StringPicks(partitions[i], index, blackList)
      ensures AllHaveBest(AfterPasses(AllLookedUp(partitions[i], index, blackList), blackList))
      ensures HolderWeight(BestWeights(AfterPasses(AllLookedUp(partitions[i], index, blackList), blackList), blackList))
              == PartitionWeight(partitions[i], index, blackList)
    {
      AllSettledHaveBest(partitions[i], index, blackList);
      PassesSettle(partitions[i], index, blackList);
    }
    combination.CalculateAllWeights(blackList);
  }

  /** The weights, and then the choice. */
  method ChoosePartition(combination: ResultCombination, partitions: seq<seq<string>>, index: Index,
                         blackList: BlackList)
    returns (found: bool)
    requires IsHealthy(index) && combination.Valid() && |combination.resultHolderList| == |partitions|
    requires combination.bestMatchingResultHolder == null
    requires forall i | 0 <= i < |partitions| ::
               combination.resultHolderList[i].Views() == AllLookedUp(partitions[i], index, blackList)
    modifies combination`bestMatchingResultHolder
    modifies combination.resultHolderList`combinedWeight, combination.Results(), combination.Boards()
    ensures var weights := PartitionWeights(partitions, index, blackList);
            && (found <==> exists i :: 0 <= i < |weights| && weights[i] > 0.0)
            && (found ==> exists k: nat ::
                  && IsFirstMaximum(weights, k)
                  && combination.bestMatchingResultHolder == combination.resultHolderList[k])
    ensures forall i | 0 <= i < |partitions| ::
              combination.resultHolderList[i].Picks() == StringPicks(partitions[i], index, blackList)
  {
    hide ResultCombination.Valid;
    hide ResultHolder.Valid;
    hide ResultHolder.Views;
    hide ResultHolder.Picks;
    hide IsHealthy;
    hide AllLookedUp;
    hide StringPicks;
    hide PartitionWeight;
    WeighPartitions(combination, partitions, index, blackList);
    found := combination.ChooseBestMatchingResultHolder();
  }

  /** A fresh combination of results for the partitions of a slice. */
  method LookUpSlice(slice: string, partitions: seq<seq<string>>, index: Index, blackList: BlackList,
                     words: seq<string>)
    returns (combination: ResultCombination, words': seq<string>)
    requires IsIndex(index)
    ensures fresh(combination) && combination.Valid() && |combination.resultHolderList| == |partitions|
    ensures combination.bestMatchingResultHolder == null
    ensures forall i | 0 <= i < |partitions| :: fresh(combination.resultHolderList[i])
    ensures fresh(combination.Results()) && fresh(combination.Boards())
    ensures forall i | 0 <= i < |partitions| ::
              combination.resultHolderList[i].Views() == AllLookedUp(partitions[i], index, blackList)
    ensures words' == words + ReportAll(partitions, index, blackList)
  {
    combination := new ResultCombination(slice);
    words' := SearchString(partitions, combination, index, blackList, words);
  }

  /** The weights of all the partitions of a slice, and the choice of one:
      the first of the greatest weight. Only a slice without any word has none. */
  method InterpretSlice(slice: string, index: Index, blackList: BlackList, words: seq<string>)
    returns (combination: ResultCombination, found: bool, words': seq<string>)
    requires IsHealthy(index)
    ensures |combination.resultHolderList| == |Partition(slice)|
    ensures found <==> Tokens(slice) != []
    ensures found ==> exists k: nat ::
              && IsFirstMaximum(PartitionWeights(Partition(slice), index, blackList), k)
              && combination.bestMatchingResultHolder == combination.resultHolderList[k]
    ensures forall i | 0 <= i < |Partition(slice)| ::
              combination.resultHolderList[i].Picks() == StringPicks(Partition(slice)[i], index, blackList)
    ensures words' == words + ReportAll(Partition(slice), index, blackList)
  {
    var stringPartition := new StringPartition(slice);
    var partitions := stringPartition.partition;
    combination, words' := LookUpSlice(slice, partitions, index, blackList, words);
    found := ChoosePartition(combination, partitions, index, blackList);
    SomeWeightIsPositive(slice, index, blackList);
  }

  /** The data of the strings that matched, in order. */
  function PlacesOf(picks: seq<Pick>): seq<string> {
    if picks == [] then []
    else
      var last := picks[|picks| - 1];
      PlacesOf(picks[..|picks| - 1]) + if last.isMatch then [last.data] else []
  }

  lemma {:induction false} PlacesConcat(a: seq<Pick>, b: seq<Pick>)
    ensures PlacesOf(a + b) == PlacesOf(a) + PlacesOf(b)
  {
    if b == [] {
      assert a + b == a;
    } else {
      var init, last := b[..|b| - 1], b[|b| - 1];
      PlacesConcat(a, init);
      assert (a + b)[..|a + b| - 1] == a + init && (a + b)[|a + b| - 1] == last;
      ConcatIsAssociative(PlacesOf(a), PlacesOf(init), if last.isMatch then [last.data] else []);
    }
  }

  /** The places of the selected holder: its results without a match have no document. */
  method CreatePlaces(combination: ResultCombination, places: seq<string>) returns (places': seq<string>)
    requires combination.bestMatchingResultHolder != null
    ensures places' == places + PlacesOf(combination.bestMatchingResultHolder.Picks())
  {
    var results := combination.bestMatchingResultHolder.resultList;
    ghost var picks := combination.bestMatchingResultHolder.Picks();
    places' := places;
    for i := 0 to |results|
      invariant places' == places + PlacesOf(picks[..i])
    {
      assert picks[..i + 1][..i] == picks[..i];
      if !results[i].hasFullTextMatched {
        continue;
      }
      places' := places' + [results[i].bestDocData];
    }
    assert picks[..|results|] == picks;
  }

  // ---------------------------------------------------------------------
  // A whole query, slice by slice

  /** The unknown words of the slices, one slice after the other. */
  function ReportRuns(runs: Grouping, index: Index, blackList: BlackList): seq<string> {
    if runs == [] then []
    else
      ReportRuns(runs[..|runs| - 1], index, blackList)
      + ReportAll(RenderAll(Groupings(runs[|runs| - 1])), index, blackList)
  }

  lemma ReportNext(runs: Grouping, i: nat, index: Index, blackList: BlackList)
    requires i < |runs|
    ensures ReportRuns(runs[..i + 1], index, blackList)
            == ReportRuns(runs[..i], index, blackList) + ReportAll(RenderAll(Groupings(runs[i])), index, blackList)
  {
    assert runs[..i + 1][..i] == runs[..i];
  }

  /** A grouping of a run, of the first of the greatest weights. */
  ghost predicate IsBestGrouping(g: Grouping, run: seq<string>, index: Index, blackList: BlackList) {
    exists k: nat ::
      && IsFirstMaximum(PartitionWeights(RenderAll(Groupings(run)), index, blackList), k)
      && g == Groupings(run)[k]
  }

  lemma BestGroupingIsAGrouping(g: Grouping, run: seq<string>, index: Index, blackList: BlackList)
    requires IsBestGrouping(g, run, index, blackList)
    ensures IsGrouping(g, run)
  {
    var k: nat :|
      IsFirstMaximum(PartitionWeights(RenderAll(Groupings(run)), index, blackList), k) && g == Groupings(run)[k];
    GroupingsAreSound(run, k);
  }

  /** The places of a grouping: the best document of each piece that matches, in order. */
  function PlacesOfGrouping(g: Grouping, index: Index, blackList: BlackList): seq<string> {
    PlacesOf(StringPicks(Render(g), index, blackList))
  }

  lemma PlacesOfConcat(g: Grouping, h: Grouping, index: Index, blackList: BlackList)
    ensures PlacesOfGrouping(g + h, index, blackList)
            == PlacesOfGrouping(g, index, blackList) + PlacesOfGrouping(h, index, blackList)
  {
    hide PickOf;
    hide Settled;
    hide PlacesOf;
    var a, b := StringPicks(Render(g), index, blackList), StringPicks(Render(h), index, blackList);
    assert StringPicks(Render(g + h), index, blackList) == a + b;
    PlacesConcat(a, b);
  }

  lemma NothingYet(index: Index, blackList: BlackList)
    ensures PlacesOfGrouping(Flatten([]), index, blackList) == [] && ReportRuns([], index, blackList) == []
  {
  }

  /** One more slice: its places come last. */
  lemma PlacesOfNext(chosen: seq<Grouping>, best: Grouping, index: Index, blackList: BlackList)
    ensures PlacesOfGrouping(Flatten(chosen + [best]), index, blackList)
            == PlacesOfGrouping(Flatten(chosen), index, blackList) + PlacesOfGrouping(best, index, blackList)
  {
    FlattenConcat(chosen, [best]);
    assert [best][1..] == [] && best + [] == best;
    PlacesOfConcat(Flatten(chosen), best, index, blackList);
  }

  /** The chosen partition of a slice is written from a grouping of its words. */
  lemma ChosenGrouping(slice: string, k: nat, index: Index, blackList: BlackList)
    requires IsFirstMaximum(PartitionWeights(Partition(slice), index, blackList), k)
    ensures Partition(slice) == RenderAll(Groupings(Tokens(slice)))
    ensures k < |Partition(slice)| == |Groupings(Tokens(slice))|
    ensures IsBestGrouping(Groupings(Tokens(slice))[k], Tokens(slice), index, blackList)
    ensures PlacesOf(StringPicks(Partition(slice)[k], index, blackList))
            == PlacesOfGrouping(Groupings(Tokens(slice))[k], index, blackList)
  {
    hide StringPicks;
    hide PlacesOf;
    hide Groupings;
    hide Tokens;
  }

  /** One slice, from its words to its places. */
  method InterpretRun(slice: string, ghost run: seq<string>, index: Index, blackList: BlackList,
                      places: seq<string>, words: seq<string>)
    returns (places': seq<string>, words': seq<string>, ghost best: Grouping)
    requires IsHealthy(index) && run != [] && Tokens(slice) == run
    ensures places' == places + PlacesOfGrouping(best, index, blackList)
    ensures words' == words + ReportAll(RenderAll(Groupings(run)), index, blackList)
    ensures IsBestGrouping(best, run, index, blackList)
  {
    hide Partition;
    hide PartitionWeight;
    hide ReportAll;
    hide RenderAll;
    hide StringPicks;
    hide PlacesOf;
    hide PlacesOfGrouping;
    hide IsBestGrouping;
    hide Groupings;
    hide Tokens;
    hide IsHealthy;
    hide ResultHolder.Picks;
    var combination, found;
    combination, found, words' := InterpretSlice(slice, index, blackList, words);
    ghost var k: nat :|
      && IsFirstMaximum(PartitionWeights(Partition(slice), index, blackList), k)
      && combination.bestMatchingResultHolder == combination.resultHolderList[k];
    ChosenGrouping(slice, k, index, blackList);
    best := Groupings(run)[k];
    places' := CreatePlaces(combination, places);
  }

  /** The next slice. */
  method InterpretNext(slice: StringPartition, ghost i: nat, ghost runs: Grouping, ghost chosen: seq<Grouping>,
                       index: Index, blackList: BlackList, places: seq<string>, words: seq<string>)
    returns (places': seq<string>, words': seq<string>, ghost best: Grouping)
    requires IsHealthy(index) && i < |runs| && runs[i] != [] && Tokens(slice.initialString) == runs[i]
    requires words == ReportRuns(runs[..i], index, blackList)
    requires places == PlacesOfGrouping(Flatten(chosen), index, blackList)
    ensures words' == ReportRuns(runs[..i + 1], index, blackList)
    ensures places' == PlacesOfGrouping(Flatten(chosen + [best]), index, blackList)
    ensures IsBestGrouping(best, runs[i], index, blackList)
  {
    hide *;
    places', words', best := InterpretRun(slice.initialString, runs[i], index, blackList, places, words);
    ReportNext(runs, i, index, blackList);
    PlacesOfNext(chosen, best, index, blackList);
  }

  method InterpretSlices(slices: seq<StringPartition>, ghost runs: Grouping, index: Index, blackList: BlackList)
    returns (places: seq<string>, words: seq<string>, ghost chosen: seq<Grouping>)
    requires IsHealthy(index) && |slices| == |runs|
    requires forall i | 0 <= i < |runs| :: runs[i] != [] && Tokens(slices[i].initialString) == runs[i]
    ensures words == ReportRuns(runs, index, blackList) && |chosen| == |runs|
    ensures places == PlacesOfGrouping(Flatten(chosen), index, blackList)
    ensures forall i | 0 <= i < |runs| :: IsBestGrouping(chosen[i], runs[i], index, blackList)
  {
    hide IsBestGrouping;
    hide IsHealthy;
    hide Tokens;
    hide PlacesOfGrouping;
    hide ReportRuns;
    hide Flatten;
    places, words, chosen := [], [], [];
    NothingYet(index, blackList);
    assert runs[..0] == [];
    for i := 0 to |slices|
      invariant |chosen| == i && words == ReportRuns(runs[..i], index, blackList)
      invariant places == PlacesOfGrouping(Flatten(chosen), index, blackList)
      invariant forall j | 0 <= j < i :: IsBestGrouping(chosen[j], runs[j], index, blackList)
    {
      ghost var best;
      places, words, best := InterpretNext(slices[i], i, runs, chosen, index, blackList, places, words);
      chosen := chosen + [best];
    }
    assert runs[..|runs|] == runs;
  }

  lemma BestChoicesGroupTheQuery(chosen: seq<Grouping>, ws: seq<string>, m: Oracle, index: Index,
                                 blackList: BlackList)
    requires ws != [] && |chosen| == |Runs(ws, m)|
    requires forall i | 0 <= i < |chosen| :: IsBestGrouping(chosen[i], Runs(ws, m)[i], index, blackList)
    ensures IsGrouping(Flatten(chosen), ws) && AllLinked(Flatten(chosen), m)
  {
    var runs := Runs(ws, m);
    forall i | 0 <= i < |runs| ensures IsGrouping(chosen[i], runs[i]) {
      BestGroupingIsAGrouping(chosen[i], runs[i], index, blackList);
    }
    RunsAreASlicing(ws, m);
    ChoiceIsALinkedGrouping(chosen, runs, m);
  }

  lemma SlicesAreRuns(querySlices: QuerySlices, ws: seq<string>)
    requires ws == Tokens(querySlices.queryString) && ws != []
    requires |ws| >= 2 ==> SlicesHold(querySlices.slices, Runs(ws, Juxtaposes(querySlices.index)))
    requires |ws| <= 1 ==>
               && |querySlices.slices| == 1 && querySlices.slices[0].initialString == querySlices.queryString
    ensures var runs := Runs(ws, Juxtaposes(querySlices.index));
            && |querySlices.slices| == |runs|
            && forall i | 0 <= i < |runs| :: runs[i] != [] && Tokens(querySlices.slices[i].initialString) == runs[i]
  {
    var runs := Runs(ws, Juxtaposes(querySlices.index));
    TokensAreWords(querySlices.queryString);
    RunsAreASlicing(ws, Juxtaposes(querySlices.index));
    forall i | 0 <= i < |runs| ensures runs[i] != [] && Tokens(querySlices.slices[i].initialString) == runs[i] {
      assert runs[i] in runs;
      PiecesAreWords(runs, i);
      TokensOfJoin(runs[i]);
    }
  }

  /** Each slice gets its best grouping. Together they group all the words of the
      query, in order and none twice, and never across a gap that does not match;
      the places are the best documents of their pieces.
      The source demands a word at least. */
  method InterpretTravelRequest(query: string, unpunctuate: string -> string, unquote: string -> string,
                                index: Index, blackList: BlackList)
    returns (places: seq<string>, words: seq<string>, ghost chosen: seq<Grouping>)
    requires IsHealthy(index) && Tokens(unquote(unpunctuate(query))) != []
    ensures words == ReportRuns(Runs(Tokens(unquote(unpunctuate(query))), Juxtaposes(index)), index, blackList)
    ensures var ws := Tokens(unquote(unpunctuate(query))); var runs := Runs(ws, Juxtaposes(index));
            && |chosen| == |runs|
            && (forall i | 0 <= i < |runs| :: IsBestGrouping(chosen[i], runs[i], index, blackList))
            && IsGrouping(Flatten(chosen), ws) && AllLinked(Flatten(chosen), Juxtaposes(index))
    ensures places == PlacesOfGrouping(Flatten(chosen), index, blackList)
  {
    var querySlices := new QuerySlices(query, index, unpunctuate, unquote);
    ghost var ws := Tokens(querySlices.queryString);
    SlicesAreRuns(querySlices, ws);
    places, words, chosen := InterpretSlices(querySlices.slices, Runs(ws, Juxtaposes(index)), index, blackList);
    BestChoicesGroupTheQuery(chosen, ws, Juxtaposes(index), index, blackList);
  }
}
