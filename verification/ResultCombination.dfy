/** The partitions of one slice, and the choice among them
    (opentrep/bom/ResultCombination.cpp). */
module ResultCombinations {
  import opened Filtering
  import opened ScoreBoards
  import opened Results
  import opened ResultHolders

  /** The first of the greatest weights, if that one is positive. */
  ghost predicate IsFirstMaximum(weights: seq<real>, k: nat) {
    && k < |weights| && weights[k] > 0.0
    && (forall i | 0 <= i < k :: weights[i] < weights[k])
    && (forall i | k <= i < |weights| :: weights[i] <= weights[k])
  }

  /** The results after all the passes on their documents. */
  function AfterPasses(vs: seq<Snapshot>, blackList: BlackList): seq<Snapshot> {
    AllAfterPass(AllAfterPass(AllAfterPass(vs, ENVELOPES, blackList), CODES, blackList), PAGE_RANKS, blackList)
  }

  predicate AllHaveBest(vs: seq<Snapshot>) {
    forall v | v in vs :: HasBest(v)
  }

  class ResultCombination {
    const travelQuery: string
    var resultHolderList: seq<ResultHolder>
    var bestMatchingResultHolder: ResultHolder?

    ghost function Results(): set<Result>
      reads this`resultHolderList, resultHolderList
    {
      set i, j | 0 <= i < |resultHolderList| && 0 <= j < |resultHolderList[i].resultList| ::
        resultHolderList[i].resultList[j]
    }

    ghost function Boards(): (bs: set<ScoreBoard>)
      reads this`resultHolderList, resultHolderList, Results()
      ensures forall h | h in resultHolderList :: h.Boards() <= bs
    {
      set h, b | h in resultHolderList && b in h.Boards() :: b
    }

    ghost predicate Apart(g: ResultHolder, h: ResultHolder)
      reads g, h, g.resultList, h.resultList
    {
      && g != h
      && (forall r | r in g.resultList :: r !in h.resultList)
      && g.Boards() !! h.Boards()
    }

    /** The holders share nothing with one another. */
    ghost predicate Valid()
      reads this`resultHolderList, resultHolderList, Results(), Boards()
    {
      && (forall h | h in resultHolderList :: h.Valid())
      && (forall i, j | 0 <= i < j < |resultHolderList| :: Apart(resultHolderList[i], resultHolderList[j]))
    }

    constructor (travelQuery: string)
      ensures this.travelQuery == travelQuery && resultHolderList == [] && bestMatchingResultHolder == null
    {
      this.travelQuery := travelQuery;
      resultHolderList, bestMatchingResultHolder := [], null;
    }

    lemma NoHolders()
      requires resultHolderList == []
      ensures Valid() && Results() == {} && Boards() == {}
    {
    }

    /** A combination does not change when nothing in it does. */
    twostate lemma StaysTheSame()
      requires old(Valid()) && unchanged(this`resultHolderList) && unchanged(resultHolderList)
      requires unchanged(old(Results())) && unchanged(old(Boards()))
      ensures Valid() && Results() == old(Results()) && Boards() == old(Boards())
      ensures forall h | h in resultHolderList ::
                h.Valid() && h.Boards() == old(h.Boards()) && h.Views() == old(h.Views())
    {
      hide ResultHolder.Valid;
      hide ResultHolder.Views;
      forall h | h in resultHolderList
        ensures h.Valid() && h.Boards() == old(h.Boards()) && h.Views() == old(h.Views())
      {
        h.StaysTheSame();
      }
    }

    /** A new holder with new results shares nothing with those of the combination. */
    twostate lemma NewHolderIsApart(new holder: ResultHolder)
      requires old(Valid()) && unchanged(this`resultHolderList) && unchanged(resultHolderList)
      requires unchanged(old(Results())) && unchanged(old(Boards()))
      requires fresh(holder) && forall r | r in holder.resultList :: fresh(r)
      requires forall b | b in holder.Boards() :: fresh(b)
      ensures Valid() && Results() == old(Results()) && Boards() == old(Boards())
      ensures forall h | h in resultHolderList :: Apart(h, holder) && h.Views() == old(h.Views())
    {
      hide ResultHolder.Valid;
      hide ResultHolder.Views;
      StaysTheSame();
      assert forall h | h in resultHolderList :: forall b | b in h.Boards() :: !fresh(b);
    }

    /** One more holder, apart from the others, which stay the same. */
    twostate lemma HolderIsLinked(holder: ResultHolder)
      requires old(Valid()) && resultHolderList == old(resultHolderList) + [holder]
      requires forall h | h in old(resultHolderList) :: old(Apart(h, holder))
      requires forall h | h in resultHolderList ::
                 h.Valid() && h.resultList == old(h.resultList) && h.Boards() == old(h.Boards())
      ensures Valid()
      ensures Results() <= old(Results()) + (set r | r in holder.resultList)
      ensures Boards() <= old(Boards()) + holder.Boards()
    {
      hide ResultHolder.Valid;
      hide ResultHolder.Boards;
      var n := |resultHolderList| - 1;
      forall i | 0 <= i < n ensures Apart(resultHolderList[i], holder) {
        assert resultHolderList[i] in old(resultHolderList);
      }
      forall b | b in Boards() ensures b in old(Boards()) + holder.Boards() {
        var h :| h in resultHolderList && b in h.Boards();
        assert h == holder || h in old(resultHolderList);
      }
      forall r | r in Results() ensures r in old(Results()) || r in holder.resultList {
        var i, j :| 0 <= i <= n && 0 <= j < |resultHolderList[i].resultList| && r == resultHolderList[i].resultList[j];
        assert i < n ==> old(resultHolderList)[i] == resultHolderList[i];
      }
    }

    /** Links a holder that shares nothing with those of the combination. */
    method AddHolder(holder: ResultHolder)
      requires Valid() && holder.Valid() && forall h | h in resultHolderList :: Apart(h, holder)
      modifies this`resultHolderList
      ensures resultHolderList == old(resultHolderList) + [holder] && Valid()
      ensures forall h | h in resultHolderList :: h.Views() == old(h.Views())
      ensures Results() <= old(Results()) + (set r | r in holder.resultList)
      ensures Boards() <= old(Boards()) + holder.Boards()
    {
      hide ResultHolder.Valid;
      hide ResultHolder.Views;
      resultHolderList := resultHolderList + [holder];
      forall h | h in resultHolderList
        ensures h.Valid() && h.Boards() == old(h.Boards()) && h.Views() == old(h.Views())
      {
        h.StaysTheSame();
      }
      HolderIsLinked(holder);
    }

    ghost function Weights(): (weights: seq<real>)
      reads this`resultHolderList, resultHolderList
      ensures |weights| == |resultHolderList|
      ensures forall i | 0 <= i < |weights| :: weights[i] == resultHolderList[i].combinedWeight
    {
      var hs := resultHolderList;
      seq(|hs|, i requires 0 <= i < |hs| reads hs => hs[i].combinedWeight)
    }

    /** Selects the first of the holders of the greatest weight. When no weight
        is positive, the selection stays as it was. */
    method ChooseBestMatchingResultHolder() returns (found: bool)
      modifies this`bestMatchingResultHolder
      ensures found <==> bestMatchingResultHolder != null
      ensures if exists i :: 0 <= i < |old(Weights())| && old(Weights())[i] > 0.0
              then exists k: nat :: IsFirstMaximum(old(Weights()), k) && bestMatchingResultHolder == resultHolderList[k]
              else bestMatchingResultHolder == old(bestMatchingResultHolder)
    {
      ghost var weights := Weights();
      ghost var k := 0;
      var max := 0.0;
      for i := 0 to |resultHolderList|
        invariant forall j | 0 <= j < |weights| :: weights[j] == resultHolderList[j].combinedWeight
        invariant max >= 0.0 && forall j | 0 <= j < i :: weights[j] <= max
        invariant max == 0.0 ==> bestMatchingResultHolder == old(bestMatchingResultHolder)
        invariant max > 0.0 ==>
                    && 0 <= k < i && bestMatchingResultHolder == resultHolderList[k] && max == weights[k]
                    && forall j | 0 <= j < k :: weights[j] < max
      {
        var weight := resultHolderList[i].combinedWeight;
        if weight > max {
          max, k := weight, i;
          bestMatchingResultHolder := resultHolderList[i];
        }
      }
      found := bestMatchingResultHolder != null;
      assert max > 0.0 ==> IsFirstMaximum(weights, k);
    }

    /** The holders may change, but they stay apart as long as they keep their results and boards. */
    twostate lemma BoardsStayTheSame()
      requires old(Valid()) && unchanged(this`resultHolderList)
      requires forall h | h in resultHolderList ::
                 h.Valid() && h.resultList == old(h.resultList) && h.Boards() == old(h.Boards())
      ensures Valid() && Boards() == old(Boards())
    {
      hide ResultHolder.Valid;
      hide ResultHolder.Boards;
    }

    method RunPassOn(i: nat, holder: ResultHolder, pass: Pass, blackList: BlackList)
      requires Valid() && i < |resultHolderList| && holder == resultHolderList[i]
      modifies holder.Boards()
      ensures Valid() && Boards() == old(Boards())
      ensures holder.Views() == AllAfterPass(old(holder.Views()), pass, blackList)
      ensures forall j | 0 <= j < |resultHolderList| && j != i ::
                resultHolderList[j].Views() == old(resultHolderList[j].Views())
    {
      hide ResultHolder.Valid;
      hide ResultHolder.Views;
      hide AllAfterPass;
      holder.RunPass(pass, blackList);
      forall j | 0 <= j < |resultHolderList| && j != i
        ensures resultHolderList[j].Valid() && resultHolderList[j].Boards() == old(resultHolderList[j].Boards())
        ensures resultHolderList[j].Views() == old(resultHolderList[j].Views())
      {
        resultHolderList[j].StaysTheSame();
      }
      BoardsStayTheSame();
    }

    method RunPass(pass: Pass, blackList: BlackList)
      requires Valid()
      modifies Boards()
      ensures Valid() && Boards() == old(Boards())
      ensures forall h | h in resultHolderList :: h.Views() == AllAfterPass(old(h.Views()), pass, blackList)
    {
      hide ResultCombination.Valid;
      hide ResultCombination.Boards;
      hide ResultHolder.Boards;
      hide ResultHolder.Views;
      hide AllAfterPass;
      for i := 0 to |resultHolderList|
        invariant Valid() && Boards() == old(Boards())
        invariant forall j | 0 <= j < i ::
                    resultHolderList[j].Views() == AllAfterPass(old(resultHolderList[j].Views()), pass, blackList)
        invariant forall j | i <= j < |resultHolderList| ::
                    resultHolderList[j].Views() == old(resultHolderList[j].Views())
      {
        RunPassOn(i, resultHolderList[i], pass, blackList);
      }
    }

    method CombineHolder(i: nat, holder: ResultHolder, blackList: BlackList)
      requires Valid() && i < |resultHolderList| && holder == resultHolderList[i] && AllHaveBest(holder.Views())
      modifies holder`combinedWeight, holder.resultList, holder.Boards()
      ensures Valid() && forall h | h in resultHolderList :: h.Boards() == old(h.Boards())
      ensures holder.combinedWeight == HolderWeight(BestWeights(old(holder.Views()), blackList))
      ensures holder.Picks() == PicksOf(old(holder.Views()))
      ensures forall j | 0 <= j < |resultHolderList| && j != i ::
                resultHolderList[j].Views() == old(resultHolderList[j].Views())
                && resultHolderList[j].combinedWeight == old(resultHolderList[j].combinedWeight)
                && resultHolderList[j].Picks() == old(resultHolderList[j].Picks())
    {
      hide ResultHolder.Valid;
      hide ResultHolder.Picks;
      hide HolderWeight;
      hide BestWeights;
      hide PicksOf;
      holder.CalculateCombinedWeights(blackList);
      forall j | 0 <= j < |resultHolderList| && j != i
        ensures resultHolderList[j].Valid() && resultHolderList[j].Boards() == old(resultHolderList[j].Boards())
        ensures resultHolderList[j].Views() == old(resultHolderList[j].Views())
        ensures resultHolderList[j].Picks() == old(resultHolderList[j].Picks())
      {
        resultHolderList[j].StaysTheSame();
      }
      BoardsStayTheSame();
    }

    /** Each holder gets its combined weight. */
    method CalculateCombinedWeights(blackList: BlackList)
      requires Valid() && forall h | h in resultHolderList :: AllHaveBest(h.Views())
      modifies resultHolderList`combinedWeight, Results(), Boards()
      ensures Valid()
      ensures forall h | h in resultHolderList ::
                h.combinedWeight == HolderWeight(BestWeights(old(h.Views()), blackList))
      ensures forall h | h in resultHolderList :: h.Picks() == PicksOf(old(h.Views()))
    {
      hide ResultHolder.Valid;
      hide ResultHolder.Views;
      hide ResultHolder.Picks;
      hide ResultHolder.Boards;
      hide HolderWeight;
      hide BestWeights;
      hide PicksOf;
      hide AllHaveBest;
      for i := 0 to |resultHolderList|
        invariant Valid() && forall h | h in resultHolderList :: h.Boards() == old(h.Boards())
        invariant forall j | 0 <= j < i ::
                    resultHolderList[j].combinedWeight
                    == HolderWeight(BestWeights(old(resultHolderList[j].Views()), blackList))
        invariant forall j | 0 <= j < i :: resultHolderList[j].Picks() == PicksOf(old(resultHolderList[j].Views()))
        invariant forall j | i <= j < |resultHolderList| ::
                    resultHolderList[j].Views() == old(resultHolderList[j].Views())
      {
        CombineHolder(i, resultHolderList[i], blackList);
      }
    }

    method RunPasses(blackList: BlackList)
      requires Valid()
      modifies Boards()
      ensures Valid()
      ensures forall h | h in resultHolderList :: h.Views() == AfterPasses(old(h.Views()), blackList)
    {
      hide ResultCombination.Valid;
      hide ResultCombination.Boards;
      hide ResultHolder.Views;
      hide AllAfterPass;
      RunPass(ENVELOPES, blackList);
      RunPass(CODES, blackList);
      RunPass(PAGE_RANKS, blackList);
    }

    /** All the passes, then the combined weights. */
    method CalculateAllWeights(blackList: BlackList)
      requires Valid() && forall h | h in resultHolderList :: AllHaveBest(AfterPasses(h.Views(), blackList))
      modifies resultHolderList`combinedWeight, Results(), Boards()
      ensures Valid()
      ensures forall h | h in resultHolderList ::
                h.combinedWeight == HolderWeight(BestWeights(AfterPasses(old(h.Views()), blackList), blackList))
      ensures forall h | h in resultHolderList :: h.Picks() == PicksOf(AfterPasses(old(h.Views()), blackList))
    {
      RunPasses(blackList);
      CalculateCombinedWeights(blackList);
    }
  }
}
