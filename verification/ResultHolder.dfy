/** The results of one string partition (opentrep/bom/ResultHolder.cpp). */
module ResultHolders {
  import opened Basics
  import opened Filtering
  import opened ScoreBoards
  import opened Results

  /** How much a partition is weighed down, for each of its strings. */
  const ATTENUATION_FACTOR := 850.0

  function Total(weights: seq<real>): real {
    if weights == [] then 100.0
    else Total(weights[..|weights| - 1]) * (weights[|weights| - 1] / 100.0)
  }

  /** The weight of a partition, out of the weights of its strings. */
  function HolderWeight(weights: seq<real>): real {
    if weights == [] then 0.0
    else if |weights| == 1 then Total(weights)
    else Total(weights) / Pow(ATTENUATION_FACTOR, |weights|)
  }

  function AllAfterPass(vs: seq<Snapshot>, pass: Pass, blackList: BlackList): (r: seq<Snapshot>)
    ensures |r| == |vs| && forall i | 0 <= i < |vs| :: r[i] == AfterPass(vs[i], pass, blackList)
  {
    seq(|vs|, i requires 0 <= i < |vs| => AfterPass(vs[i], pass, blackList))
  }

  function BestWeights(vs: seq<Snapshot>, blackList: BlackList): (r: seq<real>)
    ensures |r| == |vs| && forall i | 0 <= i < |vs| :: r[i] == BestWeight(vs[i], blackList)
  {
    seq(|vs|, i requires 0 <= i < |vs| => BestWeight(vs[i], blackList))
  }

  /** What a result settles on: the data of its best document, if it matched at all. */
  datatype Pick = Pick(isMatch: bool, data: string)

  function PickOf(v: Snapshot): Pick {
    Pick(v.hasMatched, BestOf(v.scores).data)
  }

  function PicksOf(vs: seq<Snapshot>): (ps: seq<Pick>)
    ensures |ps| == |vs| && forall i | 0 <= i < |vs| :: ps[i] == PickOf(vs[i])
  {
    seq(|vs|, i requires 0 <= i < |vs| => PickOf(vs[i]))
  }

  /** The product of the percentages, weighed down when there are several. */
  method WeightOf(percentages: seq<real>) returns (combined: real)
    ensures combined == HolderWeight(percentages)
  {
    combined := 100.0;
    if percentages == [] {
      combined := 0.0;
    }
    for i := 0 to |percentages|
      invariant combined == if percentages == [] then 0.0 else Total(percentages[..i])
    {
      assert percentages[..i + 1][..i] == percentages[..i];
      combined := combined * (percentages[i] / 100.0);
    }
    assert percentages[..|percentages|] == percentages;
    if |percentages| > 1 {
      combined := combined / Pow(ATTENUATION_FACTOR, |percentages|);
    }
  }

  class ResultHolder {
    var resultList: seq<Result>
    var combinedWeight: real

    ghost function Boards(): (bs: set<ScoreBoard>)
      reads this`resultList, resultList
      ensures forall r | r in resultList :: r.Boards() <= bs
    {
      set r, b | r in resultList && b in r.Boards() :: b
    }

    /** The results share nothing with one another. */
    ghost predicate Valid()
      reads this`resultList, resultList, Boards()
    {
      && (forall r | r in resultList :: r.Valid())
      && (forall i, j | 0 <= i < j < |resultList| ::
            resultList[i] != resultList[j] && resultList[i].Boards() !! resultList[j].Boards())
    }

    ghost function Views(): (vs: seq<Snapshot>)
      reads this`resultList, resultList, Boards()
      ensures |vs| == |resultList|
      ensures forall i | 0 <= i < |vs| :: vs[i] == resultList[i].View()
    {
      var rs := resultList;
      seq(|rs|, i requires 0 <= i < |rs| reads rs, set r, b | r in rs && b in r.Boards() :: b => rs[i].View())
    }

    ghost function Picks(): (ps: seq<Pick>)
      reads this`resultList, resultList
      ensures |ps| == |resultList|
      ensures forall i | 0 <= i < |ps| :: ps[i] == Pick(resultList[i].hasFullTextMatched, resultList[i].bestDocData)
    {
      var rs := resultList;
      seq(|rs|, i requires 0 <= i < |rs| reads rs => Pick(rs[i].hasFullTextMatched, rs[i].bestDocData))
    }

    /** A holder does not change when its list, its results and their boards do not. */
    twostate lemma StaysTheSame()
      requires old(Valid()) && unchanged(this`resultList)
      requires forall r | r in old(resultList) :: unchanged(r)
      requires forall b | b in old(Boards()) :: unchanged(b)
      ensures Valid() && Boards() == old(Boards()) && Views() == old(Views()) && Picks() == old(Picks())
    {
      forall r | r in resultList ensures r.Valid() && r.Boards() == old(r.Boards()) && r.View() == old(r.View()) {
        assert forall b | b in old(r.Boards()) :: b in old(Boards());
        r.StaysTheSame();
      }
    }

    lemma OthersAreApart(i: nat)
      requires Valid() && i < |resultList|
      ensures resultList[i].Valid() && forall j | 0 <= j < |resultList| && j != i ::
                resultList[j] != resultList[i] && resultList[j].Boards() !! resultList[i].Boards()
    {
    }

    /** One result changes, and keeps its boards: the others and their boards stay. */
    twostate lemma OneResultChanged(i: nat)
      requires old(Valid()) && unchanged(this`resultList) && i < |resultList|
      requires forall j | 0 <= j < |resultList| && j != i ::
                 unchanged(resultList[j]) && forall b | b in old(resultList[j].Boards()) :: unchanged(b)
      requires resultList[i].Valid() && resultList[i].Boards() == old(resultList[i].Boards())
      ensures Valid() && Boards() == old(Boards())
      ensures Views() == old(Views())[i := resultList[i].View()]
      ensures Picks() == old(Picks())[i := Pick(resultList[i].hasFullTextMatched, resultList[i].bestDocData)]
    {
      hide Result.Valid;
      hide Result.View;
      hide Result.Boards;
      forall j | 0 <= j < |resultList| && j != i
        ensures resultList[j].Valid() && resultList[j].Boards() == old(resultList[j].Boards())
        ensures resultList[j].View() == old(resultList[j].View())
      {
        resultList[j].StaysTheSame();
      }
    }

    constructor ()
      ensures resultList == [] && Valid() && Views() == []
    {
      resultList, combinedWeight := [], 0.0;
    }

    /** Links a result that shares nothing with those of the holder. */
    method AddResult(result: Result)
      requires Valid() && result.Valid() && result !in resultList && result.Boards() !! Boards()
      modifies this`resultList
      ensures resultList == old(resultList) + [result]
      ensures Valid() && Boards() <= old(Boards()) + result.Boards()
      ensures Views() == old(Views()) + [result.View()]
    {
      hide Result.Valid;
      hide Result.View;
      hide Result.Boards;
      ghost var vs := Views();
      resultList := resultList + [result];
      assert forall i | 0 <= i < |vs| :: Views()[i] == vs[i];
    }

    method RunPassOn(i: nat, pass: Pass, blackList: BlackList)
      requires Valid() && i < |resultList|
      modifies resultList[i].Boards()
      ensures Valid()
      ensures Views() == old(Views())[i := AfterPass(old(Views())[i], pass, blackList)]
    {
      hide Result.Valid;
      hide Result.View;
      hide ResultHolder.Boards;
      hide AfterPass;
      OthersAreApart(i);
      hide ResultHolder.Valid;
      resultList[i].RunPass(pass, blackList);
      OneResultChanged(i);
    }

    method RunPass(pass: Pass, blackList: BlackList)
      requires Valid()
      modifies Boards()
      ensures Valid() && Views() == AllAfterPass(old(Views()), pass, blackList)
    {
      ghost var vs := Views();
      for i := 0 to |resultList|
        invariant Valid()
        invariant forall j | 0 <= j < i :: Views()[j] == AllAfterPass(vs, pass, blackList)[j]
        invariant forall j | i <= j < |resultList| :: Views()[j] == vs[j]
      {
        RunPassOn(i, pass, blackList);
      }
    }

    method CombineResult(i: nat, result: Result, blackList: BlackList)
      requires Valid() && i < |resultList| && result == resultList[i] && HasBest(result.View())
      modifies result, result.Boards()
      ensures Valid() && Boards() == old(Boards())
      ensures result.bestCombinedWeight == BestWeight(old(result.View()), blackList)
      ensures forall j | 0 <= j < |resultList| && j != i :: resultList[j].View() == old(resultList[j].View())
      ensures Picks() == old(Picks())[i := PickOf(old(result.View()))]
    {
      hide Result.Valid;
      hide ResultHolder.Boards;
      OthersAreApart(i);
      hide ResultHolder.Valid;
      result.CalculateCombinedWeights(blackList);
      OneResultChanged(i);
    }

    /** Each result settles on its best weight. */
    method CombineResults(blackList: BlackList) returns (percentages: seq<real>)
      requires Valid() && forall v | v in Views() :: HasBest(v)
      modifies resultList, Boards()
      ensures Valid() && Boards() == old(Boards())
      ensures percentages == BestWeights(old(Views()), blackList)
      ensures Picks() == PicksOf(old(Views()))
    {
      hide ResultHolder.Valid;
      hide ResultHolder.Boards;
      hide ResultHolder.Views;
      hide ResultHolder.Picks;
      hide HasBest;
      hide BestWeight;
      hide PickOf;
      ghost var vs := Views();
      percentages := [];
      for i := 0 to |resultList|
        invariant Valid() && Boards() == old(Boards())
        invariant percentages == BestWeights(vs, blackList)[..i]
        invariant forall j | 0 <= j < i :: Picks()[j] == PicksOf(vs)[j]
        invariant forall j | i <= j < |resultList| :: resultList[j].View() == vs[j]
      {
        assert vs[i] in vs;
        CombineResult(i, resultList[i], blackList);
        percentages := percentages + [resultList[i].bestCombinedWeight];
      }
    }

    /** The combined weight of the partition, out of the best weights of its strings. */
    method CalculateCombinedWeights(blackList: BlackList)
      requires Valid() && forall v | v in Views() :: HasBest(v)
      modifies this`combinedWeight, resultList, Boards()
      ensures Valid() && Boards() == old(Boards())
      ensures combinedWeight == HolderWeight(BestWeights(old(Views()), blackList))
      ensures Picks() == PicksOf(old(Views()))
    {
      var percentages := CombineResults(blackList);
      label Combined:
      var percentage := WeightOf(percentages);
      combinedWeight := percentage;
      hide ResultHolder.Valid;
      hide ResultHolder.Boards;
      hide ResultHolder.Views;
      hide ResultHolder.Picks;
      StaysTheSame@Combined();
    }
  }
}
