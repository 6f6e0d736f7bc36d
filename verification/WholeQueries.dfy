/** What a whole query gives: the slicing and the look-ups share one index
    (opentrep/command/RequestInterpreter.cpp, opentrep/bom/QuerySlices.cpp). */
module WholeQueries {
  import opened Words
  import opened StringPartitions
  import opened QuerySlicing
  import opened Filtering
  import opened ScoreBoards
  import opened Results
  import opened ResultHolders
  import opened RequestInterpreters
  import opened Rankings
  import opened RankingTheorems

  // ---------------------------------------------------------------------
  // In a slice of several words, something matches

  /** No black-listed entry holds a space. */
  ghost predicate HasPlainWords(blackList: BlackList) {
    forall w | w in blackList :: ' ' !in w
  }

  /** The filter keeps the two words that the slicing keeps together, and their look-up
      matches once more. */
  lemma JuxtaposesIff(a: string, b: string, index: Index, blackList: BlackList)
    requires IsWord(a) && IsWord(b) && HasPlainWords(blackList)
    ensures Juxtaposes(index)(a, b) <==> FullTextOf(index, Join([a, b]), blackList).hasMatched
  {
    var q := a + " " + b;
    assert q[|a|] == ' ';
    assert Join([a, b]) == q;
  }

  lemma {:induction false} LinkedPair(p: seq<string>, k: nat, m: Oracle)
    requires Linked(p, m) && k + 1 < |p|
    ensures m(p[k], p[k + 1])
  {
    if k > 0 {
      LinkedPair(p[1..], k - 1, m);
    }
  }

  lemma WordsOfThePair(run: seq<string>, k: nat)
    requires AreWords(run) && k + 1 < |run|
    ensures IsWord(run[k]) && IsWord(run[k + 1])
  {
    assert run[k] in run && run[k + 1] in run;
  }

  /** Any two neighbours in a slice match something, ... */
  lemma PairsOfASliceMatch(run: seq<string>, k: nat, index: Index, blackList: BlackList)
    requires AreWords(run) && Linked(run, Juxtaposes(index)) && HasPlainWords(blackList) && k + 1 < |run|
    ensures FullTextOf(index, Join(run[k..k + 2]), blackList).hasMatched
  {
    hide *;
    WordsOfThePair(run, k);
    LinkedPair(run, k, Juxtaposes(index));
    JuxtaposesIff(run[k], run[k + 1], index, blackList);
    assert run[k..k + 2] == [run[k], run[k + 1]];
  }

  /** ... so that no slice of several words matches nothing. */
  lemma SlicesMatchSomething(ws: seq<string>, index: Index, blackList: BlackList)
    requires AreWords(ws) && ws != [] && HasPlainWords(blackList)
    ensures forall run | run in Runs(ws, Juxtaposes(index)) && |run| >= 2 :: !NothingMatches(run, index, blackList)
  {
    var m := Juxtaposes(index);
    RunsAreASlicing(ws, m);
    forall run | run in Runs(ws, m) && |run| >= 2 ensures !NothingMatches(run, index, blackList) {
      var k :| 0 <= k < |Runs(ws, m)| && Runs(ws, m)[k] == run;
      PiecesAreWords(Runs(ws, m), k);
      PairsOfASliceMatch(run, 0, index, blackList);
      assert FullTextOf(index, Join(run[0..2]), blackList).hasMatched;
    }
  }

  lemma {:induction false} ApartAt(rs: Grouping, k: nat, m: Oracle)
    requires Apart(rs, m) && k + 1 < |rs|
    ensures rs[k] != [] && rs[k + 1] != [] && !m(rs[k][|rs[k]| - 1], rs[k + 1][0])
  {
    if k > 0 {
      ApartAt(rs[1..], k - 1, m);
    }
  }

  /** Where a slice ends, the two words match nothing together, corrected or not. */
  lemma BoundariesMatchNothing(ws: seq<string>, k: nat, index: Index, blackList: BlackList)
    requires AreWords(ws) && ws != [] && HasPlainWords(blackList) && k + 1 < |Runs(ws, Juxtaposes(index))|
    ensures var rs := Runs(ws, Juxtaposes(index));
            && rs[k] != [] && rs[k + 1] != []
            && !FullTextOf(index, Join([rs[k][|rs[k]| - 1], rs[k + 1][0]]), blackList).hasMatched
  {
    hide AreWords;
    hide IsWord;
    hide FullTextOf;
    hide Juxtaposes;
    hide Join;
    hide Apart;
    var m := Juxtaposes(index);
    var rs := Runs(ws, m);
    RunsAreASlicing(ws, m);
    ApartAt(rs, k, m);
    PiecesAreWords(rs, k);
    PiecesAreWords(rs, k + 1);
    EndsAreWords(rs[k], rs[k + 1]);
    JuxtaposesIff(rs[k][|rs[k]| - 1], rs[k + 1][0], index, blackList);
  }

  lemma EndsAreWords(p: seq<string>, q: seq<string>)
    requires AreWords(p) && AreWords(q) && p != [] && q != []
    ensures IsWord(p[|p| - 1]) && IsWord(q[0])
  {
    assert p[|p| - 1] in p && q[0] in q;
  }

  // ---------------------------------------------------------------------
  // A query none of whose neighbours match

  predicate IsUnlinked(ws: seq<string>, m: Oracle) {
    forall i | 0 <= i < |ws| - 1 :: !m(ws[i], ws[i + 1])
  }

  lemma UnlinkedTail(ws: seq<string>, m: Oracle)
    requires |ws| >= 2
    ensures IsUnlinked(ws, m) <==> !m(ws[0], ws[1]) && IsUnlinked(ws[1..], m)
  {
    var tail := ws[1..];
    if !m(ws[0], ws[1]) && IsUnlinked(tail, m) {
      forall i | 0 <= i < |ws| - 1 ensures !m(ws[i], ws[i + 1]) {
        if i > 0 {
          assert tail[i - 1] == ws[i] && tail[i] == ws[i + 1];
        }
      }
    }
    if IsUnlinked(ws, m) {
      forall i | 0 <= i < |tail| - 1 ensures !m(tail[i], tail[i + 1]) {
        assert tail[i] == ws[i + 1] && tail[i + 1] == ws[i + 2];
      }
    }
  }

  /** It has one slice for each word, and no other query has. */
  lemma {:induction false} RunsAreSinglesIff(ws: seq<string>, m: Oracle)
    requires ws != []
    ensures Runs(ws, m) == Singletons(ws) <==> IsUnlinked(ws, m)
  {
    var rs := Runs(ws, m);
    if |ws| == 1 {
      assert ws == [ws[0]];
    } else {
      var tail := ws[1..];
      RunsAreSinglesIff(tail, m);
      UnlinkedTail(ws, m);
      assert Singletons(ws)[1..] == Singletons(tail);
      if m(ws[0], ws[1]) {
        assert |rs[0]| >= 2;
      } else {
        assert rs == [[ws[0]]] + Runs(tail, m) && rs[1..] == Runs(tail, m);
      }
    }
  }

  lemma GroupingOfOneWord(g: Grouping, w: string)
    requires IsGrouping(g, [w])
    ensures g == [[w]]
  {
    assert g[0] in g;
    assert |g[0]| + |Flatten(g[1..])| == 1;
    assert forall p | p in g[1..] :: p in g;
    FlattenIsEmpty(g[1..]);
    assert g[0] + [] == g[0] && g == [g[0]] + g[1..];
  }

  lemma {:induction false} FlattenOfSingles(chosen: seq<Grouping>, ws: seq<string>)
    requires |chosen| == |ws| && forall i | 0 <= i < |chosen| :: chosen[i] == [[ws[i]]]
    ensures Flatten(chosen) == Singletons(ws)
  {
    if ws != [] {
      FlattenOfSingles(chosen[1..], ws[1..]);
    }
  }

  /** The best documents of the words that match, in order. */
  function DocumentsOf(ws: seq<string>, index: Index, blackList: BlackList): seq<string> {
    if ws == [] then []
    else
      var w := ws[|ws| - 1];
      DocumentsOf(ws[..|ws| - 1], index, blackList)
      + if FullTextOf(index, w, blackList).hasMatched then [BestOf(Settled(w, index, blackList).scores).data] else []
  }

  lemma PickIs(w: string, index: Index, blackList: BlackList)
    ensures var v := Settled(w, index, blackList);
            PickOf(v) == Pick(FullTextOf(index, w, blackList).hasMatched, BestOf(v.scores).data)
  {
  }

  lemma {:induction false} PlacesAreDocuments(ws: seq<string>, index: Index, blackList: BlackList)
    ensures PlacesOf(StringPicks(ws, index, blackList)) == DocumentsOf(ws, index, blackList)
  {
    hide Settled;
    hide BestOf;
    hide PickOf;
    hide FullTextOf;
    if ws != [] {
      PlacesAreDocuments(ws[..|ws| - 1], index, blackList);
      PickIs(ws[|ws| - 1], index, blackList);
      var picks := StringPicks(ws, index, blackList);
      assert picks[..|ws| - 1] == StringPicks(ws[..|ws| - 1], index, blackList);
    }
  }

  /** Such a query is read word by word, whatever the filter drops: the choices are the
      single words, and the places the best documents of those that match. */
  lemma UnlinkedQueryIsReadWordByWord(ws: seq<string>, chosen: seq<Grouping>, index: Index, blackList: BlackList)
    requires ws != [] && IsUnlinked(ws, Juxtaposes(index)) && |chosen| == |Runs(ws, Juxtaposes(index))|
    requires forall i | 0 <= i < |chosen| ::
               IsBestGrouping(chosen[i], Runs(ws, Juxtaposes(index))[i], index, blackList)
    ensures Flatten(chosen) == Singletons(ws)
    ensures PlacesOfGrouping(Flatten(chosen), index, blackList) == DocumentsOf(ws, index, blackList)
  {
    RunsAreSinglesIff(ws, Juxtaposes(index));
    forall i | 0 <= i < |chosen| ensures chosen[i] == [[ws[i]]] {
      BestGroupingIsAGrouping(chosen[i], [ws[i]], index, blackList);
      GroupingOfOneWord(chosen[i], ws[i]);
    }
    FlattenOfSingles(chosen, ws);
    assert Render(Singletons(ws)) == ws;
    PlacesAreDocuments(ws, index, blackList);
  }

  // ---------------------------------------------------------------------
  // The words that a whole query reports

  ghost predicate IsDistinct(ss: seq<string>) {
    forall i, j | 0 <= i < j < |ss| :: ss[i] != ss[j]
  }

  lemma {:induction false} CountOfDistinct(ss: seq<string>, w: string)
    requires IsDistinct(ss)
    ensures multiset(ss)[w] == if w in ss then 1 else 0
  {
    if ss != [] {
      var init := ss[..|ss| - 1];
      assert ss == init + [ss[|ss| - 1]];
      CountOfDistinct(init, w);
    }
  }

  lemma {:induction false} DistinctIff(ss: seq<string>)
    ensures IsDistinct(ss) <==> forall w :: multiset(ss)[w] <= 1
  {
    if IsDistinct(ss) {
      forall w ensures multiset(ss)[w] <= 1 {
        CountOfDistinct(ss, w);
      }
    }
    if !IsDistinct(ss) {
      var i, j :| 0 <= i < j < |ss| && ss[i] == ss[j];
      var w := ss[i];
      assert ss == ss[..j] + ss[j..];
      assert ss[..j][i] == w && ss[j..][0] == w;
      assert multiset(ss)[w] == multiset(ss[..j])[w] + multiset(ss[j..])[w];
      assert w in multiset(ss[..j]) && w in multiset(ss[j..]);
    }
  }

  lemma SliceReportIs(run: seq<string>, index: Index, blackList: BlackList)
    requires AreWords(run)
    ensures var r := ReportAll(RenderAll(Groupings(run)), index, blackList);
            IsDistinct(r) && forall w :: w in r <==> w in run && IsUnknown(w, index, blackList)
  {
    TokensOfJoin(run);
    UnmatchedWordsOfAPhrase(Join(run), index, blackList);
    hide ReportAll;
    hide Groupings;
    hide IsUnknown;
    hide FirstAt;
    var r := ReportAll(RenderAll(Groupings(run)), index, blackList);
    forall i, j | 0 <= i < j < |r| ensures r[i] != r[j] {
      assert r[i] in run && r[j] in run && FirstAt(run, r[i]) < FirstAt(run, r[j]);
    }
  }

  /** A slice reports each of its unknown words once. */
  lemma SliceReports(run: seq<string>, w: string, index: Index, blackList: BlackList)
    requires AreWords(run)
    ensures var r := ReportAll(RenderAll(Groupings(run)), index, blackList);
            multiset(r)[w] == if w in run && IsUnknown(w, index, blackList) then 1 else 0
  {
    hide ReportAll;
    hide Groupings;
    hide IsUnknown;
    SliceReportIs(run, index, blackList);
    CountOfDistinct(ReportAll(RenderAll(Groupings(run)), index, blackList), w);
  }

  /** The number of slices that a word stands in. */
  function SlicesWith(runs: Grouping, w: string): nat {
    if runs == [] then 0 else SlicesWith(runs[..|runs| - 1], w) + if w in runs[|runs| - 1] then 1 else 0
  }

  /** The query reports each unknown word once for each slice that it stands in. */
  lemma {:induction false} QueryReports(runs: Grouping, w: string, index: Index, blackList: BlackList)
    requires forall run | run in runs :: AreWords(run)
    ensures multiset(ReportRuns(runs, index, blackList))[w]
            == if IsUnknown(w, index, blackList) then SlicesWith(runs, w) else 0
  {
    hide ReportAll;
    hide Groupings;
    hide IsUnknown;
    if runs != [] {
      var init, last := runs[..|runs| - 1], runs[|runs| - 1];
      assert last in runs && forall run | run in init :: run in runs;
      QueryReports(init, w, index, blackList);
      SliceReports(last, w, index, blackList);
    }
  }

  /** No word is reported twice exactly when no unknown word stands in two slices. */
  lemma NoWordIsReportedTwiceIff(runs: Grouping, index: Index, blackList: BlackList)
    requires forall run | run in runs :: AreWords(run)
    ensures IsDistinct(ReportRuns(runs, index, blackList))
            <==> forall w | IsUnknown(w, index, blackList) :: SlicesWith(runs, w) <= 1
  {
    hide IsUnknown;
    hide ReportRuns;
    hide SlicesWith;
    var r := ReportRuns(runs, index, blackList);
    DistinctIff(r);
    forall w ensures multiset(r)[w] == if IsUnknown(w, index, blackList) then SlicesWith(runs, w) else 0 {
      QueryReports(runs, w, index, blackList);
    }
  }

  /** The unknown words, as often as they come. */
  function UnknownWords(ws: seq<string>, index: Index, blackList: BlackList): seq<string> {
    if ws == [] then []
    else
      var w := ws[|ws| - 1];
      UnknownWords(ws[..|ws| - 1], index, blackList) + if IsUnknown(w, index, blackList) then [w] else []
  }

  lemma TwoOfOne(r: seq<string>, w: string)
    requires |r| >= 2 && forall q | q in r :: q == w
    ensures !IsDistinct(r)
  {
    assert r[0] in r && r[1] in r;
  }

  lemma OneWordReports(w: string, index: Index, blackList: BlackList)
    requires IsWord(w)
    ensures ReportAll(RenderAll(Groupings([w])), index, blackList)
            == if IsUnknown(w, index, blackList) then [w] else []
  {
    hide ReportAll;
    hide Groupings;
    hide IsUnknown;
    var r := ReportAll(RenderAll(Groupings([w])), index, blackList);
    SliceReportIs([w], index, blackList);
    if |r| == 1 {
      assert r[0] in r;
    } else if |r| >= 2 {
      TwoOfOne(r, w);
    }
  }

  lemma {:induction false} SinglesReport(ws: seq<string>, index: Index, blackList: BlackList)
    requires AreWords(ws)
    ensures ReportRuns(Singletons(ws), index, blackList) == UnknownWords(ws, index, blackList)
  {
    hide ReportAll;
    hide Groupings;
    hide IsUnknown;
    if ws != [] {
      var init, w := ws[..|ws| - 1], ws[|ws| - 1];
      assert Singletons(ws)[..|ws| - 1] == Singletons(init);
      SinglesReport(init, index, blackList);
      OneWordReports(w, index, blackList);
    }
  }

  /** A query none of whose neighbours match reports its unknown words as often as they come. */
  lemma UnlinkedQueryReports(ws: seq<string>, index: Index, blackList: BlackList)
    requires ws != [] && AreWords(ws) && IsUnlinked(ws, Juxtaposes(index))
    ensures ReportRuns(Runs(ws, Juxtaposes(index)), index, blackList) == UnknownWords(ws, index, blackList)
  {
    RunsAreSinglesIff(ws, Juxtaposes(index));
    SinglesReport(ws, index, blackList);
  }

  /** An index of one place, for which nothing is suggested. */
  function ParisOnly(): Index {
    Index(q => if q == "paris" then [Hit(Document(1, "PAR", Location("PAR", 0, 1.0)), 100.0)] else [], (q, n) => "")
  }

  lemma ParisOnlyIsHealthy()
    ensures IsHealthy(ParisOnly())
  {
  }

  lemma ParisOnlyKnows(q: string)
    ensures LookUp(ParisOnly(), q).hasMatched <==> q == "paris"
  {
  }

  lemma NoPairIsParis(ws: seq<string>)
    ensures IsUnlinked(ws, Juxtaposes(ParisOnly()))
  {
    forall i | 0 <= i < |ws| - 1 ensures !Juxtaposes(ParisOnly())(ws[i], ws[i + 1]) {
      var q := ws[i] + " " + ws[i + 1];
      assert q[|ws[i]|] == ' ';
      ParisOnlyKnows(q);
    }
  }

  lemma UnknownWordsGrow(ws: seq<string>, w: string, index: Index, blackList: BlackList)
    ensures UnknownWords(ws + [w], index, blackList)
            == UnknownWords(ws, index, blackList) + if IsUnknown(w, index, blackList) then [w] else []
  {
    assert (ws + [w])[..|ws|] == ws;
  }

  lemma ThreeWords(a: string, b: string)
    requires IsWord(a) && IsWord(b)
    ensures AreWords([a, b, a])
  {
  }

  lemma UnknownWordsOfNone(index: Index, blackList: BlackList)
    ensures UnknownWords([], index, blackList) == []
  {
  }

  lemma UnknownWordsOfThree(a: string, b: string, index: Index, blackList: BlackList)
    requires IsUnknown(a, index, blackList) && !IsUnknown(b, index, blackList)
    ensures UnknownWords([a, b, a], index, blackList) == [a, a]
  {
    hide *;
    UnknownWordsOfNone(index, blackList);
    var none: seq<string> := [];
    UnknownWordsGrow(none, a, index, blackList);
    var one := none + [a];
    UnknownWordsGrow(one, b, index, blackList);
    var two := one + [b];
    UnknownWordsGrow(two, a, index, blackList);
    assert two + [a] == [a, b, a];
  }

  /** The word set is local to a slice: an unknown word around a known one is reported twice. */
  lemma RepeatedWord(a: string, b: string, index: Index, blackList: BlackList)
    requires IsWord(a) && IsWord(b) && IsUnlinked([a, b, a], Juxtaposes(index))
    requires IsUnknown(a, index, blackList) && !IsUnknown(b, index, blackList)
    ensures ReportRuns(Runs([a, b, a], Juxtaposes(index)), index, blackList) == [a, a]
  {
    hide *;
    ThreeWords(a, b);
    UnlinkedQueryReports([a, b, a], index, blackList);
    UnknownWordsOfThree(a, b, index, blackList);
  }

  lemma ParisOnlyWords()
    ensures IsWord("xyz") && IsWord("paris") && Tokens("xyz paris xyz") == ["xyz", "paris", "xyz"]
    ensures IsUnknown("xyz", ParisOnly(), {}) && !IsUnknown("paris", ParisOnly(), {})
  {
    assert IsWord("xyz") && IsWord("paris");
    ParisOnlyKnows("xyz");
    ParisOnlyKnows("paris");
    hide LookUp;
    assert Join(["xyz", "paris", "xyz"]) == "xyz paris xyz";
    hide Tokens;
    TokensOfJoin(["xyz", "paris", "xyz"]);
  }

  /** So does "xyz paris xyz". */
  lemma AWordIsReportedTwice()
    ensures IsHealthy(ParisOnly())
    ensures ReportRuns(Runs(Tokens("xyz paris xyz"), Juxtaposes(ParisOnly())), ParisOnly(), {}) == ["xyz", "xyz"]
  {
    hide *;
    ParisOnlyIsHealthy();
    ParisOnlyWords();
    NoPairIsParis(["xyz", "paris", "xyz"]);
    RepeatedWord("xyz", "paris", ParisOnly(), {});
  }
}
