/** Looking up all the partitions of a slice of the query, and choosing the best
    of them (opentrep/command/RequestInterpreter.cpp). */
module RequestInterpreters {
  import opened Words
  import opened StringPartitions
  import opened Filtering
  import opened ScoreBoards
  import opened Results
  import opened ResultHolders
  import opened ResultCombinations
  import Levenshtein

  // ---------------------------------------------------------------------
  // What the search finds, as values

  ghost predicate IsIndex(index: Index) {
    forall q :: HasDistinctDocs(index.search(q))
  }

  function LookedUp(q: string, index: Index, blackList: BlackList): Snapshot {
    var t := FullTextOf(index, q, blackList);
    Snapshot(q, t.matched, t.hasMatched, Filled(t.hits, t.editDistance))
  }

  function AllLookedUp(qs: seq<string>, index: Index, blackList: BlackList): (vs: seq<Snapshot>)
    ensures |vs| == |qs| && forall i | 0 <= i < |qs| :: vs[i] == LookedUp(qs[i], index, blackList)
  {
    seq(|qs|, i requires 0 <= i < |qs| => LookedUp(qs[i], index, blackList))
  }

  /** What a document is looked up with: its percentage, divided by the cube of the edit
      distance when the string was corrected. */
  lemma LookedUpPercentage(q: string, index: Index, blackList: BlackList, i: nat)
    requires i < |LookedUp(q, index, blackList).scores|
    ensures var v := LookedUp(q, index, blackList);
            var hits, d := index.search(v.corrected), Levenshtein.Distance(q, v.corrected) as real;
            && |v.scores| == |hits| && v.scores[i].0 == hits[i].doc && v.scores[i].1.Keys == {XAPIAN_PCT}
            && (v.corrected != q ==> d >= 1.0)
            && hits[i].percent == v.scores[i].1[XAPIAN_PCT] * if v.corrected == q then 1.0 else d * d * d
  {
    LookUpIsConsistent(index, q);
    LookUpFindsIff(index, q);
    hide LookUp;
    hide CorrectedScore;
    hide ShouldKeep;
    hide Levenshtein.Distance;
    var t := LookUp(index, q);
    CorrectedTimesCube(t.hits[i].percent, t.editDistance);
  }

  /** A string that is reported as unknown: a word that the filter keeps, and
      that matches nothing. */
  predicate IsUnmatchedWord(q: string, index: Index, blackList: BlackList) {
    FullTextOf(index, q, blackList).matched == "" && |Tokens(q)| == 1 && ShouldKeep("", q, blackList)
  }

  /** The unknown words, each once, after one string, one partition, and several. */
  function Report(q: string, words: seq<string>, index: Index, blackList: BlackList): seq<string> {
    if IsUnmatchedWord(q, index, blackList) && q !in words then words + [q] else words
  }

  function ReportSet(qs: seq<string>, words: seq<string>, index: Index, blackList: BlackList): seq<string> {
    if qs == [] then words
    else Report(qs[|qs| - 1], ReportSet(qs[..|qs| - 1], words, index, blackList), index, blackList)
  }

  function ReportAll(sets: seq<seq<string>>, index: Index, blackList: BlackList): seq<string> {
    if sets == [] then []
    else ReportSet(sets[|sets| - 1], ReportAll(sets[..|sets| - 1], index, blackList), index, blackList)
  }

  // ---------------------------------------------------------------------
  // The search

  method AddUnmatchedWord(query: string, words: seq<string>, wordSet: set<string>, blackList: BlackList)
    returns (words': seq<string>, wordSet': set<string>)
    ensures var isNew := |Tokens(query)| == 1 && ShouldKeep("", query, blackList) && query !in wordSet;
            && words' == (if isNew then words + [query] else words)
            && wordSet' == (if isNew then wordSet + {query} else wordSet)
  {
    words', wordSet' := words, wordSet;
    var queryWords := TokeniseStringIntoWordList(query);
    if |queryWords| == 1 {
      if ShouldKeep("", query, blackList) && query !in wordSet {
        wordSet' := wordSet + {query};
        words' := words + [query];
      }
    }
  }

  /** A result is created and looked up for one string. */
  method SearchWord(query: string, index: Index, blackList: BlackList, words: seq<string>, wordSet: set<string>)
    returns (result: Result, words': seq<string>, wordSet': set<string>)
    requires IsIndex(index) && wordSet == (set w | w in words)
    ensures fresh(result) && result.Valid() && fresh(result.Boards())
    ensures result.View() == LookedUp(query, index, blackList)
    ensures words' == Report(query, words, index, blackList) && wordSet' == (set w | w in words')
  {
    result := new Result(query);
    assert result.Boards() == {};
    hide Result.Valid;
    hide FullTextOf;
    hide Filled;
    hide ShouldKeep;
    var matchedString := result.FullTextMatch(index, blackList);
    words', wordSet' := words, wordSet;
    if matchedString == "" {
      words', wordSet' := AddUnmatchedWord(query, words, wordSet, blackList);
    }
  }

  /** One string of a partition: its result is linked to the holder, and the
      string is reported when nothing matches it. */
  method SearchOneString(query: string, holder: ResultHolder, index: Index, blackList: BlackList,
                         words: seq<string>, wordSet: set<string>)
    returns (words': seq<string>, wordSet': set<string>, ghost result: Result)
    requires IsIndex(index) && holder.Valid() && wordSet == (set w | w in words)
    modifies holder`resultList
    ensures holder.Valid() && forall b | b in holder.Boards() :: b in old(holder.Boards()) || fresh(b)
    ensures fresh(result) && holder.resultList == old(holder.resultList) + [result]
    ensures holder.Views() == old(holder.Views()) + [LookedUp(query, index, blackList)]
    ensures words' == Report(query, words, index, blackList) && wordSet' == (set w | w in words')
  {
    hide LookedUp;
    hide Report;
    hide ResultHolder.Valid;
    hide ResultHolder.Views;
    var newResult;
    newResult, words', wordSet' := SearchWord(query, index, blackList, words, wordSet);
    holder.StaysTheSame();
    result := newResult;
    holder.AddResult(newResult);
  }

  lemma LookedUpSnoc(qs: seq<string>, i: nat, index: Index, blackList: BlackList)
    requires i < |qs|
    ensures AllLookedUp(qs[..i + 1], index, blackList)
            == AllLookedUp(qs[..i], index, blackList) + [LookedUp(qs[i], index, blackList)]
    ensures forall words :: ReportSet(qs[..i + 1], words, index, blackList)
                            == Report(qs[i], ReportSet(qs[..i], words, index, blackList), index, blackList)
  {
    assert qs[..i + 1][..i] == qs[..i];
  }

  /** One partition: a holder for its strings. */
  method SearchPartition(strings: seq<string>, index: Index, blackList: BlackList,
                         words: seq<string>, wordSet: set<string>)
    returns (holder: ResultHolder, words': seq<string>, wordSet': set<string>)
    requires IsIndex(index) && wordSet == (set w | w in words)
    ensures fresh(holder) && holder.Valid()
    ensures (forall r | r in holder.resultList :: fresh(r)) && (forall b | b in holder.Boards() :: fresh(b))
    ensures holder.Views() == AllLookedUp(strings, index, blackList)
    ensures words' == ReportSet(strings, words, index, blackList) && wordSet' == (set w | w in words')
  {
    holder := new ResultHolder();
    words', wordSet' := words, wordSet;
    assert ReportSet(strings[..0], words, index, blackList) == words;
    hide ResultHolder.Valid;
    hide LookedUp;
    hide Report;
    hide ReportSet;
    for i := 0 to |strings|
      invariant holder.Valid() && (forall r | r in holder.resultList :: fresh(r))
      invariant forall b | b in holder.Boards() :: fresh(b)
      invariant holder.Views() == AllLookedUp(strings[..i], index, blackList)
      invariant words' == ReportSet(strings[..i], words, index, blackList) && wordSet' == (set w | w in words')
    {
      LookedUpSnoc(strings, i, index, blackList);
      ghost var result;
      words', wordSet', result := SearchOneString(strings[i], holder, index, blackList, words', wordSet');
    }
    assert strings[..|strings|] == strings;
  }

  /** One partition, next to those of a combination: it shares nothing with them. */
  method SearchApart(strings: seq<string>, combination: ResultCombination, index: Index, blackList: BlackList,
                     words: seq<string>, wordSet: set<string>)
    returns (holder: ResultHolder, words': seq<string>, wordSet': set<string>)
    requires IsIndex(index) && combination.Valid() && wordSet == (set w | w in words)
    ensures combination.Valid() && fresh(holder) && holder.Valid()
    ensures forall h | h in combination.resultHolderList :: combination.Apart(h, holder) && h.Views() == old(h.Views())
    ensures combination.Results() == old(combination.Results()) && combination.Boards() == old(combination.Boards())
    ensures (forall r | r in holder.resultList :: fresh(r)) && (forall b | b in holder.Boards() :: fresh(b))
    ensures holder.Views() == AllLookedUp(strings, index, blackList)
    ensures words' == ReportSet(strings, words, index, blackList) && wordSet' == (set w | w in words')
  {
    hide ResultCombination.Valid;
    hide ResultCombination.Apart;
    hide ResultHolder.Valid;
    hide ResultHolder.Views;
    hide ReportSet;
    hide AllLookedUp;
    holder, words', wordSet' := SearchPartition(strings, index, blackList, words, wordSet);
    combination.NewHolderIsApart(holder);
  }

  method SearchOnePartition(strings: seq<string>, combination: ResultCombination, index: Index,
                            blackList: BlackList, words: seq<string>, wordSet: set<string>)
    returns (holder: ResultHolder, words': seq<string>, wordSet': set<string>)
    requires IsIndex(index) && combination.Valid() && wordSet == (set w | w in words)
    modifies combination`resultHolderList
    ensures combination.Valid() && combination.resultHolderList == old(combination.resultHolderList) + [holder]
    ensures forall h | h in old(combination.resultHolderList) :: h.Views() == old(h.Views())
    ensures fresh(holder) && holder.Views() == AllLookedUp(strings, index, blackList)
    ensures forall r | r in combination.Results() :: r in old(combination.Results()) || fresh(r)
    ensures forall b | b in combination.Boards() :: b in old(combination.Boards()) || fresh(b)
    ensures words' == ReportSet(strings, words, index, blackList) && wordSet' == (set w | w in words')
  {
    hide *;
    holder, words', wordSet' := SearchApart(strings, combination, index, blackList, words, wordSet);
    combination.AddHolder(holder);
  }

  lemma NothingToReport(sets: seq<seq<string>>, index: Index, blackList: BlackList)
    ensures ReportAll(sets[..0], index, blackList) == []
  {
  }

  lemma ReportNext(sets: seq<seq<string>>, i: nat, index: Index, blackList: BlackList)
    requires i < |sets|
    ensures ReportAll(sets[..i + 1], index, blackList)
            == ReportSet(sets[i], ReportAll(sets[..i], index, blackList), index, blackList)
  {
    assert sets[..i + 1][..i] == sets[..i];
  }

  method SearchNextPartition(partitions: seq<seq<string>>, i: nat, combination: ResultCombination, index: Index,
                             blackList: BlackList, words: seq<string>, wordSet: set<string>)
    returns (words': seq<string>, wordSet': set<string>)
    requires IsIndex(index) && combination.Valid() && |combination.resultHolderList| == i < |partitions|
    requires forall j | 0 <= j < i ::
               combination.resultHolderList[j].Views() == AllLookedUp(partitions[j], index, blackList)
    requires words == ReportAll(partitions[..i], index, blackList) && wordSet == (set w | w in words)
    modifies combination`resultHolderList
    ensures combination.Valid() && |combination.resultHolderList| == i + 1
    ensures forall j | 0 <= j < i + 1 ::
              combination.resultHolderList[j].Views() == AllLookedUp(partitions[j], index, blackList)
    ensures forall j | 0 <= j < i :: combination.resultHolderList[j] == old(combination.resultHolderList[j])
    ensures fresh(combination.resultHolderList[i])
    ensures forall r | r in combination.Results() :: r in old(combination.Results()) || fresh(r)
    ensures forall b | b in combination.Boards() :: b in old(combination.Boards()) || fresh(b)
    ensures words' == ReportAll(partitions[..i + 1], index, blackList) && wordSet' == (set w | w in words')
  {
    hide *;
    ReportNext(partitions, i, index, blackList);
    ghost var holder;
    holder, words', wordSet' := SearchOnePartition(partitions[i], combination, index, blackList, words, wordSet);
  }

  /** All the partitions of a slice: each gets its holder, linked to the combination. */
  method SearchString(partitions: seq<seq<string>>, combination: ResultCombination, index: Index,
                      blackList: BlackList, words: seq<string>)
    returns (words': seq<string>)
    requires IsIndex(index) && combination.resultHolderList == []
    modifies combination`resultHolderList
    ensures combination.Valid() && |combination.resultHolderList| == |partitions|
    ensures forall i | 0 <= i < |partitions| :: fresh(combination.resultHolderList[i])
    ensures fresh(combination.Results()) && fresh(combination.Boards())
    ensures forall i | 0 <= i < |partitions| ::
              combination.resultHolderList[i].Views() == AllLookedUp(partitions[i], index, blackList)
    ensures words' == words + ReportAll(partitions, index, blackList)
  {
    hide *;
    var unmatched, wordSet := [], {};
    combination.NoHolders();
    NothingToReport(partitions, index, blackList);
    for i := 0 to |partitions|
      invariant combination.Valid() && |combination.resultHolderList| == i
      invariant forall j | 0 <= j < i :: fresh(combination.resultHolderList[j])
      invariant forall r | r in combination.Results() :: fresh(r)
      invariant forall b | b in combination.Boards() :: fresh(b)
      invariant forall j | 0 <= j < i ::
                  combination.resultHolderList[j].Views() == AllLookedUp(partitions[j], index, blackList)
      invariant unmatched == ReportAll(partitions[..i], index, blackList) && wordSet == (set w | w in unmatched)
    {
      unmatched, wordSet := SearchNextPartition(partitions, i, combination, index, blackList, unmatched, wordSet);
    }
    assert partitions[..|partitions|] == partitions;
    words' := words + unmatched;
  }

  // ---------------------------------------------------------------------
  // The words that are reported

  /** Where a word first appears in a list. */
  function FirstAt(ws: seq<string>, w: string): (i: nat)
    requires w in ws
    ensures i < |ws| && ws[i] == w && w !in ws[..i]
  {
    if ws[0] == w then 0
    else
      assert w in ws[1..];
      var i := 1 + FirstAt(ws[1..], w);
      assert ws[..i] == [ws[0]] + ws[1..][..i - 1];
      i
  }

  /** A word that the filter keeps, and that matches nothing. */
  predicate IsUnknown(w: string, index: Index, blackList: BlackList) {
    |w| >= 3 && w !in blackList && !LookUp(index, w).hasMatched
  }

  lemma UnknownWordsAreUnmatched(w: string, index: Index, blackList: BlackList)
    requires IsWord(w)
    ensures IsUnmatchedWord(w, index, blackList) <==> IsUnknown(w, index, blackList)
  {
    TokensOfWord(w);
  }

  lemma {:induction false} ReportedInOrder(ws: seq<string>, index: Index, blackList: BlackList)
    ensures var r := ReportSet(ws, [], index, blackList);
            && (forall w :: w in r <==> w in ws && IsUnmatchedWord(w, index, blackList))
            && (forall i, j | 0 <= i < j < |r| :: FirstAt(ws, r[i]) < FirstAt(ws, r[j]))
  {
    if ws != [] {
      var init, last := ws[..|ws| - 1], ws[|ws| - 1];
      ReportedInOrder(init, index, blackList);
      assert ws == init + [last];
      forall w | w in init ensures FirstAt(ws, w) == FirstAt(init, w) {
        assert ws[..FirstAt(init, w)] == init[..FirstAt(init, w)];
      }
    }
  }

  lemma {:induction false} NothingNewToReport(qs: seq<string>, words: seq<string>, index: Index, blackList: BlackList)
    requires forall q | q in qs && IsUnmatchedWord(q, index, blackList) :: q in words
    ensures ReportSet(qs, words, index, blackList) == words
  {
    if qs != [] {
      NothingNewToReport(qs[..|qs| - 1], words, index, blackList);
      assert qs[|qs| - 1] in qs;
    }
  }

  /** The first partition reports everything that any of them can. */
  lemma {:induction false} OnlyTheFirstSetReports(sets: seq<seq<string>>, index: Index, blackList: BlackList)
    requires sets != []
    requires forall qs, q | qs in sets && q in qs && IsUnmatchedWord(q, index, blackList) :: q in sets[0]
    ensures ReportAll(sets, index, blackList) == ReportSet(sets[0], [], index, blackList)
  {
    var init, last := sets[..|sets| - 1], sets[|sets| - 1];
    if init == [] {
      assert last == sets[0];
    } else {
      assert last in sets && init[0] == sets[0];
      OnlyTheFirstSetReports(init, index, blackList);
      ReportedInOrder(sets[0], index, blackList);
      NothingNewToReport(last, ReportSet(sets[0], [], index, blackList), index, blackList);
    }
  }

  /** A string of a partition that is reported is a word of the phrase. */
  lemma ReportedStringsAreWords(ws: seq<string>, g: Grouping, i: nat, index: Index, blackList: BlackList)
    requires AreWords(ws) && IsGrouping(g, ws) && i < |g| && IsUnmatchedWord(Join(g[i]), index, blackList)
    ensures Join(g[i]) in ws
  {
    PiecesAreWords(g, i);
    TokensOfJoin(g[i]);
    PiecesAreInTheList(g, i, g[i][0]);
  }

  lemma FirstPartitionIsTheWords(phrase: string)
    ensures Partition(phrase) != [] && Partition(phrase)[0] == Tokens(phrase)
  {
    var ws := Tokens(phrase);
    if ws == [] {
      assert Render([]) == [];
    } else {
      FirstAndLastGroupings(ws);
      assert Render(Singletons(ws)) == ws;
    }
  }

  lemma LastPartitionIsThePhrase(phrase: string)
    requires Tokens(phrase) != []
    ensures var ps := Partition(phrase); ps != [] && ps[|ps| - 1] == [Join(Tokens(phrase))]
  {
    var ws := Tokens(phrase);
    hide Tokens;
    hide Join;
    FirstAndLastGroupings(ws);
    hide Groupings;
    assert Render([ws]) == [Join(ws)];
  }

  /** After all the partitions of a phrase, the words reported are exactly the
      unknown words of the phrase, each once, in the order of first appearance. */
  lemma UnmatchedWordsOfAPhrase(phrase: string, index: Index, blackList: BlackList)
    ensures var ws, r := Tokens(phrase), ReportAll(Partition(phrase), index, blackList);
            && (forall w :: w in r <==> w in ws && IsUnknown(w, index, blackList))
            && (forall i, j | 0 <= i < j < |r| :: FirstAt(ws, r[i]) < FirstAt(ws, r[j]))
  {
    var ws, ps := Tokens(phrase), Partition(phrase);
    TokensAreWords(phrase);
    forall w | w in ws ensures IsUnmatchedWord(w, index, blackList) <==> IsUnknown(w, index, blackList) {
      UnknownWordsAreUnmatched(w, index, blackList);
    }
    FirstPartitionIsTheWords(phrase);
    forall qs, q | qs in ps && q in qs && IsUnmatchedWord(q, index, blackList) ensures q in ps[0] {
      var k :| 0 <= k < |ps| && ps[k] == qs;
      var i :| 0 <= i < |qs| && qs[i] == q;
      GroupingsAreSound(ws, k);
      ReportedStringsAreWords(ws, Groupings(ws)[k], i, index, blackList);
    }
    OnlyTheFirstSetReports(ps, index, blackList);
    ReportedInOrder(ws, index, blackList);
  }

  // ---------------------------------------------------------------------
  // The weights of the partitions

  /** Documents match with a positive percentage, and have a positive PageRank. */
  ghost predicate IsHealthy(index: Index) {
    IsIndex(index) && forall q, i | 0 <= i < |index.search(q)| ::
      index.search(q)[i].percent > 0.0 && index.search(q)[i].doc.location.pageRank > 0.0
  }

  /** The scores of a document after the passes. */
  function FinalScores(hit: Hit, editDistance: nat, codeMatches: bool): ScoreMap {
    map[XAPIAN_PCT := CorrectedScore(hit.percent, editDistance),
        ENV_ID := Registered(ENV_ID, hit.doc.location.envelopeId as real),
        CODE_FULL_MATCH := Registered(CODE_FULL_MATCH, if codeMatches then 1.0 else 0.0),
        PAGE_RANK := Registered(PAGE_RANK, hit.doc.location.pageRank)]
  }

  lemma FinalWeight(hit: Hit, editDistance: nat, codeMatches: bool)
    ensures CombinedWeight(FinalScores(hit, editDistance, codeMatches)) ==
            CorrectedScore(hit.percent, editDistance)
            * (hit.doc.location.pageRank / 100.0)
            * (if hit.doc.location.envelopeId == 0 then 1.0 else 0.001)
            * (if codeMatches then 1100.0 else 1.0)
  {
    var m := FinalScores(hit, editDistance, codeMatches);
    CombinedWeightIs(m);
    var x, r := CorrectedScore(hit.percent, editDistance), hit.doc.location.pageRank / 100.0;
    assert Proportion(m, XAPIAN_PCT) == x / 100.0 && Proportion(m, PAGE_RANK) == r;
    assert Proportion(m, PAX_NB) == 1.0 && Proportion(m, HEURISTIC) == 1.0;
    assert Proportion(m, ENV_ID) == if hit.doc.location.envelopeId == 0 then 1.0 else 0.001;
    assert Proportion(m, CODE_FULL_MATCH) == if codeMatches then 1100.0 else 1.0;
  }

  /** The result of one string, after the passes. */
  function Settled(q: string, index: Index, blackList: BlackList): Snapshot {
    AfterPass(AfterPass(AfterPass(LookedUp(q, index, blackList), ENVELOPES, blackList), CODES, blackList),
              PAGE_RANKS, blackList)
  }

  lemma SettledScores(q: string, index: Index, blackList: BlackList, i: nat)
    requires i < |FullTextOf(index, q, blackList).hits|
    ensures var t := FullTextOf(index, q, blackList); var v := Settled(q, index, blackList);
            && |v.scores| == |t.hits| && v.scores[i].0 == t.hits[i].doc
            && v.scores[i].1 == FinalScores(t.hits[i], t.editDistance,
                                            t.hasMatched && CodeFullyMatches(q, t.matched, blackList, t.hits[i].doc))
  {
  }
}
