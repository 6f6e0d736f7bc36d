/** The documents that match one string, and their scores (opentrep/bom/Result.cpp). */
module Results {
  import opened Basics
  import opened Words
  import opened Filtering
  import opened ScoreBoards
  import Levenshtein

  /** What the POR details of a document say, once parsed. */
  datatype Location = Location(iataCode: string, envelopeId: int, pageRank: real)

  datatype Document = Document(docId: nat, data: string, location: Location)

  /** A document of a matching set, with its full-text percentage. */
  datatype Hit = Hit(doc: Document, percent: real)

  /** The Xapian index: the matching set of a string, and the spelling
      suggestion for a string within an allowable distance. */
  datatype Index = Index(search: string -> seq<Hit>, suggest: (string, nat) -> string)

  ghost predicate HasDistinctDocs(hits: seq<Hit>) {
    && (forall i | 0 <= i < |hits| :: hits[i].doc.docId > 0)
    && (forall i, j | 0 <= i < j < |hits| :: hits[i].doc.docId != hits[j].doc.docId)
  }

  function DocIds(hits: seq<Hit>): set<nat> {
    set i | 0 <= i < |hits| :: hits[i].doc.docId
  }

  lemma NextDocId(hits: seq<Hit>, i: nat)
    requires HasDistinctDocs(hits) && i < |hits|
    ensures hits[i].doc.docId > 0 && hits[i].doc.docId !in DocIds(hits[..i])
    ensures DocIds(hits[..i + 1]) == DocIds(hits[..i]) + {hits[i].doc.docId}
  {
    var init, more := hits[..i], hits[..i + 1];
    assert more[i] == hits[i] && forall k | 0 <= k < i :: init[k] == more[k] == hits[k];
  }

  /** A document and its score board; the list and the map of a result hold
      score boards of their own. */
  datatype DocumentPair = DocumentPair(doc: Document, board: ScoreBoard)

  type Scored = (Document, ScoreMap)

  /** The scores after a pass that gives each document a score of type t. */
  function Stamped(ss: seq<Scored>, t: ScoreType, f: Document -> real): (r: seq<Scored>)
    ensures |r| == |ss|
    ensures forall i | 0 <= i < |ss| :: r[i] == (ss[i].0, ss[i].1[t := Registered(t, f(ss[i].0))])
  {
    seq(|ss|, i requires 0 <= i < |ss| => (ss[i].0, ss[i].1[t := Registered(t, f(ss[i].0))]))
  }

  /** Two score maps agree on every individual type. */
  ghost predicate Agree(a: ScoreMap, b: ScoreMap) {
    forall t: ScoreType | IsIndividualScore(t) :: (t in a <==> t in b) && (t in a ==> a[t] == b[t])
  }

  // ---------------------------------------------------------------------
  // Full-text matching

  /** The outcome of looking a string up: the string that matched, whether any
      did, and the edit distance between the two. */
  datatype FullText = FullText(matched: string, hasMatched: bool, editDistance: nat, hits: seq<Hit>)

  const NO_MATCH := FullText("", false, 0, [])

  /** A unit of spelling error is allowed every 4 characters. */
  const SIZE_FOR_SPELLING_ERROR_UNIT := 4

  /** An exact match, else a match of the spelling suggestion, if any. */
  function LookUp(index: Index, query: string): FullText {
    var hits := index.search(query);
    if hits != [] then FullText(query, true, 0, hits)
    else
      var corrected := index.suggest(query, |query| / SIZE_FOR_SPELLING_ERROR_UNIT);
      if corrected == "" || corrected == query then NO_MATCH
      else
        var correctedHits := index.search(corrected);
        if correctedHits != [] then
          FullText(corrected, true, Levenshtein.Distance(query, corrected), correctedHits)
        else NO_MATCH
  }

  /** Whatever is found is found under the matched string, at its edit distance from
      the query; an exact match takes precedence over any correction. */
  lemma LookUpIsConsistent(index: Index, query: string)
    ensures var t := LookUp(index, query);
            && (t.hasMatched <==> t.hits != [])
            && (t.hasMatched ==> t.hits == index.search(t.matched))
            && (t.hasMatched ==> t.editDistance == Levenshtein.Distance(query, t.matched))
            && (index.search(query) != [] <==> t.hasMatched && t.matched == query)
            && (t.hasMatched ==> (t.editDistance == 0 <==> t.matched == query))
  {
    Levenshtein.DistanceLaws(query, query);
    Levenshtein.DistanceLaws(query, LookUp(index, query).matched);
  }

  /** When a look-up finds anything, and under which string: there are documents for the
      query, or for its correction within one error every four characters. */
  lemma LookUpFindsIff(index: Index, q: string)
    ensures var t, c := LookUp(index, q), index.suggest(q, |q| / 4);
            && (t.hasMatched <==> index.search(q) != [] || (c != "" && index.search(c) != []))
            && (t.hasMatched ==> t.matched == if index.search(q) != [] then q else c)
            && (!t.hasMatched ==> t.matched == "" && t.hits == [])
  {
  }

  /** Only the strings that the filter keeps are looked up. */
  function FullTextOf(index: Index, query: string, blackList: BlackList): FullText {
    if ShouldKeep("", query, blackList) then LookUp(index, query) else NO_MATCH
  }

  function Cube(n: nat): (c: real)
    ensures n > 0 ==> c > 0.0
  {
    n as real * n as real * n as real
  }

  /** Spelling corrections lower the full-text percentage. */
  function CorrectedScore(score: real, editDistance: nat): real {
    if editDistance > 0 then score / Cube(editDistance) else score
  }

  lemma CorrectedTimesCube(score: real, editDistance: nat)
    ensures var d := editDistance as real;
            CorrectedScore(score, editDistance) * (if editDistance == 0 then 1.0 else d * d * d) == score
  {
    if editDistance > 0 {
      var c := Cube(editDistance);
      assert score / c * c == score;
    }
  }

  function Filled(hits: seq<Hit>, editDistance: nat): (r: seq<Scored>)
    ensures |r| == |hits|
    ensures forall i | 0 <= i < |hits| ::
              r[i] == (hits[i].doc, map[XAPIAN_PCT := CorrectedScore(hits[i].percent, editDistance)])
  {
    seq(|hits|, i requires 0 <= i < |hits| =>
      (hits[i].doc, map[XAPIAN_PCT := CorrectedScore(hits[i].percent, editDistance)]))
  }

  // ---------------------------------------------------------------------
  // The score that each pass gives a document

  function EnvelopeScore(doc: Document): real {
    doc.location.envelopeId as real
  }

  function PageRankScore(doc: Document): real {
    doc.location.pageRank
  }

  function ToUpper(s: string): (u: string)
    ensures |u| == |s|
  {
    seq(|s|, i requires 0 <= i < |s| => if 'a' <= s[i] <= 'z' then s[i] - 'a' + 'A' else s[i])
  }

  /** The query, without its irrelevant outer words, is the code of the document. */
  predicate CodeFullyMatches(query: string, corrected: string, blackList: BlackList, doc: Document) {
    var filtered := TrimmedPhrase(query, 3, blackList);
    && |Tokens(filtered)| == 1 && 3 <= |filtered| <= 4
    && corrected == query && ToUpper(filtered) == doc.location.iataCode
  }

  function CodeScore(query: string, corrected: string, hasMatched: bool, blackList: BlackList): Document -> real {
    doc => if hasMatched && CodeFullyMatches(query, corrected, blackList, doc) then 1.0 else 0.0
  }

  datatype Pass = ENVELOPES | CODES | PAGE_RANKS

  /** A result, as a value. */
  datatype Snapshot = Snapshot(query: string, corrected: string, hasMatched: bool, scores: seq<Scored>)

  /** The score type that a pass sets, and the score it gives. */
  function PassType(p: Pass): ScoreType {
    match p
    case ENVELOPES => ENV_ID
    case CODES => CODE_FULL_MATCH
    case PAGE_RANKS => PAGE_RANK
  }

  function PassScore(v: Snapshot, p: Pass, blackList: BlackList): Document -> real {
    match p
    case ENVELOPES => EnvelopeScore
    case CODES => CodeScore(v.query, v.corrected, v.hasMatched, blackList)
    case PAGE_RANKS => PageRankScore
  }

  function AfterPass(v: Snapshot, pass: Pass, blackList: BlackList): Snapshot {
    v.(scores := Stamped(v.scores, PassType(pass), PassScore(v, pass, blackList)))
  }

  /** The weight that a result settles on. */
  function BestWeight(v: Snapshot, blackList: BlackList): real {
    if v.hasMatched then BestOf(v.scores).weight else NoMatchWeight(v.query, blackList)
  }

  /** A matched result has a document of positive weight, as the source asserts. */
  predicate HasBest(v: Snapshot) {
    v.hasMatched ==> BestOf(v.scores).weight > 0.0
  }

  // ---------------------------------------------------------------------
  // The best document

  datatype Best = Best(weight: real, docId: nat, data: string)

  function Weight(s: Scored): real {
    CombinedWeight(s.1)
  }

  /** The first document of the greatest weight, if that one is positive. */
  function BestOf(ss: seq<Scored>): Best {
    if ss == [] then Best(0.0, 0, "")
    else
      var best, last := BestOf(ss[..|ss| - 1]), ss[|ss| - 1];
      if Weight(last) > best.weight then Best(Weight(last), last.0.docId, last.0.data) else best
  }

  lemma BestOfSnoc(ss: seq<Scored>, i: nat)
    requires i < |ss|
    ensures var best := BestOf(ss[..i]);
            BestOf(ss[..i + 1]) ==
            if Weight(ss[i]) > best.weight then Best(Weight(ss[i]), ss[i].0.docId, ss[i].0.data) else best
  {
    assert ss[..i + 1][..i] == ss[..i];
  }

  function Combined(ss: seq<Scored>): (r: seq<Scored>)
    ensures |r| == |ss|
    ensures forall i | 0 <= i < |ss| :: r[i] == (ss[i].0, ss[i].1[COMBINATION := Weight(ss[i])])
  {
    seq(|ss|, i requires 0 <= i < |ss| => (ss[i].0, ss[i].1[COMBINATION := Weight(ss[i])]))
  }

  lemma StampsCommute(ss: seq<Scored>, t: ScoreType, f: Document -> real, u: ScoreType, g: Document -> real)
    requires t != u || f == g
    ensures Stamped(Stamped(ss, t, f), u, g) == Stamped(Stamped(ss, u, g), t, f)
    ensures t == u ==> Stamped(Stamped(ss, t, f), u, g) == Stamped(ss, t, f)
  {
    forall i | 0 <= i < |ss| ensures Stamped(Stamped(ss, t, f), u, g)[i] == Stamped(Stamped(ss, u, g), t, f)[i] {
      var m := ss[i].1;
      var x, y := Registered(t, f(ss[i].0)), Registered(u, g(ss[i].0));
      assert m[t := x][u := y] == m[u := y][t := x];
    }
    if t == u {
      forall i | 0 <= i < |ss| ensures Stamped(Stamped(ss, t, f), u, g)[i] == Stamped(ss, t, f)[i] {
        var m, x := ss[i].1, Registered(t, f(ss[i].0));
        assert m[t := x][t := x] == m[t := x];
      }
    }
  }

  /** The passes can run in any order, and any number of times. */
  lemma PassesCommute(v: Snapshot, p: Pass, q: Pass, blackList: BlackList)
    ensures AfterPass(AfterPass(v, p, blackList), q, blackList) == AfterPass(AfterPass(v, q, blackList), p, blackList)
    ensures AfterPass(AfterPass(v, p, blackList), p, blackList) == AfterPass(v, p, blackList)
  {
    StampsCommute(v.scores, PassType(p), PassScore(v, p, blackList), PassType(q), PassScore(v, q, blackList));
    StampsCommute(v.scores, PassType(p), PassScore(v, p, blackList), PassType(p), PassScore(v, p, blackList));
  }

  /** Combining the scores of the documents again finds the same best document. */
  lemma {:induction false} RecomputingKeepsTheBest(ss: seq<Scored>)
    ensures BestOf(Combined(ss)) == BestOf(ss)
  {
    if ss != [] {
      var init, last := ss[..|ss| - 1], ss[|ss| - 1];
      RecomputingKeepsTheBest(init);
      assert Combined(ss)[..|ss| - 1] == Combined(init);
      RecomputingChangesNothing(last.1, Weight(last));
    }
  }

  ghost predicate IsFirstBest(ss: seq<Scored>, k: nat, best: Best) {
    && k < |ss| && best == Best(Weight(ss[k]), ss[k].0.docId, ss[k].0.data)
    && (forall i | 0 <= i < k :: Weight(ss[i]) < best.weight)
    && (forall i | k <= i < |ss| :: Weight(ss[i]) <= best.weight)
  }

  lemma {:induction false} BestIsTheFirstMaximum(ss: seq<Scored>)
    ensures var best := BestOf(ss);
            && best.weight >= 0.0
            && (forall i | 0 <= i < |ss| :: Weight(ss[i]) <= best.weight)
            && (best.weight > 0.0 <==> exists i :: 0 <= i < |ss| && Weight(ss[i]) > 0.0)
            && (best.weight > 0.0 ==> exists k: nat :: IsFirstBest(ss, k, best))
  {
    if ss != [] {
      var init := ss[..|ss| - 1];
      BestIsTheFirstMaximum(init);
      var best, last := BestOf(init), ss[|ss| - 1];
      assert forall i | 0 <= i < |init| :: ss[i] == init[i];
      if Weight(last) > best.weight {
        assert IsFirstBest(ss, |ss| - 1, BestOf(ss));
      } else if best.weight > 0.0 {
        var k: nat :| IsFirstBest(init, k, best);
        assert IsFirstBest(ss, k, best);
      }
    }
  }

  /** The weight of a string without any match: an unknown word counts in full,
      anything else almost nothing. */
  function NoMatchWeight(query: string, blackList: BlackList): real {
    var n := |Tokens(query)|;
    if n == 1 && ShouldKeep("", query, blackList) then 100.0 else 1.0 / Pow(1000.0, n)
  }

  class Result {
    const queryString: string
    var correctedQueryString: string
    var hasFullTextMatched: bool
    var editDistance: nat
    var documentList: seq<DocumentPair>
    var documentMap: map<nat, DocumentPair>
    var bestDocId: nat
    var bestCombinedWeight: real
    var bestDocData: string

    ghost function Boards(): set<ScoreBoard>
      reads this
    {
      (set i | 0 <= i < |documentList| :: documentList[i].board) + (set id | id in documentMap :: documentMap[id].board)
    }

    ghost predicate Shape()
      reads this
    {
      && (forall i | 0 <= i < |documentList| ::
            var d := documentList[i].doc; d.docId > 0 && d.docId in documentMap && documentMap[d.docId].doc == d)
      && (forall i, j | 0 <= i < j < |documentList| ::
            documentList[i].doc.docId != documentList[j].doc.docId && documentList[i].board != documentList[j].board)
      && (forall i, id | 0 <= i < |documentList| && id in documentMap ::
            documentList[i].board != documentMap[id].board)
      && (forall a, b | a in documentMap && b in documentMap && a != b :: documentMap[a].board != documentMap[b].board)
    }

    /** The list and the map agree on every individual score type. */
    ghost predicate Valid()
      reads this, Boards()
    {
      && Shape()
      && (forall i | 0 <= i < |documentList| ::
            Agree(documentList[i].board.scoreMap, documentMap[documentList[i].doc.docId].board.scoreMap))
    }

    ghost function Scores(): (ss: seq<Scored>)
      reads this, Boards()
      ensures |ss| == |documentList|
      ensures forall i | 0 <= i < |ss| :: ss[i] == (documentList[i].doc, documentList[i].board.scoreMap)
    {
      seq(|documentList|, i requires 0 <= i < |documentList| reads this, Boards() =>
        (documentList[i].doc, documentList[i].board.scoreMap))
    }

    ghost function View(): (v: Snapshot)
      reads this, Boards()
      ensures v.scores == Scores()
    {
      Snapshot(queryString, correctedQueryString, hasFullTextMatched, Scores())
    }

    constructor (queryString: string)
      ensures Valid() && Scores() == []
      ensures this.queryString == queryString && !hasFullTextMatched
      ensures correctedQueryString == "" && editDistance == 0
      ensures documentList == [] && documentMap == map[]
    {
      this.queryString := queryString;
      correctedQueryString, hasFullTextMatched, editDistance := "", false, 0;
      documentList, documentMap := [], map[];
      bestDocId, bestCombinedWeight, bestDocData := 0, 0.0, "";
    }

    method InsertDocument(pair: DocumentPair, copy: DocumentPair)
      requires Valid() && pair.doc == copy.doc && pair.doc.docId > 0 && pair.doc.docId !in documentMap
      requires pair.board != copy.board && pair.board !in Boards() && copy.board !in Boards()
      requires pair.board.scoreMap == copy.board.scoreMap
      modifies this`documentList, this`documentMap
      ensures Valid() && Boards() <= old(Boards()) + {pair.board, copy.board}
      ensures documentMap == old(documentMap)[pair.doc.docId := copy]
      ensures Scores() == old(Scores()) + [(pair.doc, pair.board.scoreMap)]
    {
      assert Agree(pair.board.scoreMap, copy.board.scoreMap);
      hide Agree;
      documentList := documentList + [pair];
      documentMap := documentMap[pair.doc.docId := copy];
      assert documentList[|documentList| - 1] == pair && documentMap[pair.doc.docId] == copy;
    }

    method AddDocument(doc: Document, score: real)
      requires Valid() && doc.docId > 0 && doc.docId !in documentMap
      modifies this`documentList, this`documentMap
      ensures Valid() && forall b | b in Boards() :: b in old(Boards()) || fresh(b)
      ensures documentMap.Keys == old(documentMap).Keys + {doc.docId}
      ensures Scores() == old(Scores()) + [(doc, map[XAPIAN_PCT := CorrectedScore(score, old(editDistance))])]
    {
      var corrected := CorrectedScore(score, editDistance);
      var board := new ScoreBoard(queryString, XAPIAN_PCT, corrected);
      var copy := new ScoreBoard.Copy(board);
      InsertDocument(DocumentPair(doc, board), DocumentPair(doc, copy));
    }

    method AddHit(hits: seq<Hit>, i: nat)
      requires Valid() && i < |hits| && documentMap.Keys == DocIds(hits[..i]) && HasDistinctDocs(hits)
      requires Scores() == Filled(hits, editDistance)[..i]
      modifies this`documentList, this`documentMap
      ensures Valid() && forall b | b in Boards() :: b in old(Boards()) || fresh(b)
      ensures documentMap.Keys == DocIds(hits[..i + 1])
      ensures Scores() == Filled(hits, editDistance)[..i + 1]
    {
      hide Result.Valid;
      hide DocIds;
      hide HasDistinctDocs;
      hide Result.Boards;
      hide CorrectedScore;
      NextDocId(hits, i);
      AddDocument(hits[i].doc, hits[i].percent);
    }

    method FillResult(hits: seq<Hit>)
      requires Valid() && documentList == [] && documentMap == map[] && HasDistinctDocs(hits)
      modifies this`documentList, this`documentMap
      ensures Valid() && forall b | b in Boards() :: b in old(Boards()) || fresh(b)
      ensures Scores() == Filled(hits, editDistance)
    {
      assert DocIds(hits[..0]) == {} && Boards() == {};
      hide Result.Valid;
      hide Filled;
      hide CorrectedScore;
      hide DocIds;
      hide HasDistinctDocs;
      hide Result.Boards;
      hide Result.Scores;
      for i := 0 to |hits|
        invariant Valid() && forall b | b in Boards() :: fresh(b)
        invariant documentMap.Keys == DocIds(hits[..i])
        invariant Scores() == Filled(hits, editDistance)[..i]
      {
        AddHit(hits, i);
      }
    }

    method SearchIndex(index: Index) returns (matchedString: string, hits: seq<Hit>)
      requires Valid() && !hasFullTextMatched && correctedQueryString == "" && editDistance == 0
      modifies this`correctedQueryString, this`hasFullTextMatched, this`editDistance
      ensures Valid()
      ensures var t := LookUp(index, queryString);
              && matchedString == t.matched == correctedQueryString && hits == t.hits
              && hasFullTextMatched == t.hasMatched && editDistance == t.editDistance
    {
      matchedString := "";
      hits := index.search(queryString);
      if hits != [] {
        editDistance, hasFullTextMatched := 0, true;
        matchedString := queryString;
        correctedQueryString := matchedString;
        return;
      }
      var corrected := index.suggest(queryString, |queryString| / SIZE_FOR_SPELLING_ERROR_UNIT);
      if corrected == "" || corrected == queryString {
        return;
      }
      var distance := Levenshtein.GetDistance(queryString, corrected);
      hits := index.search(corrected);
      if hits != [] {
        editDistance, hasFullTextMatched := distance, true;
        matchedString := corrected;
        correctedQueryString := matchedString;
      }
    }

    /** The look-up of the query, in the order of the source: an exact match
        first, then the spelling suggestion. */
    method FullTextMatch(index: Index, blackList: BlackList) returns (matchedString: string)
      requires Valid() && documentList == [] && documentMap == map[] && !hasFullTextMatched
      requires correctedQueryString == "" && editDistance == 0
      requires forall q :: HasDistinctDocs(index.search(q))
      modifies this
      ensures Valid() && forall b | b in Boards() :: b in old(Boards()) || fresh(b)
      ensures var t := FullTextOf(index, queryString, blackList);
              && matchedString == t.matched == correctedQueryString
              && hasFullTextMatched == t.hasMatched && editDistance == t.editDistance
              && Scores() == Filled(t.hits, t.editDistance)
    {
      matchedString := "";
      var hits := [];
      if ShouldKeep("", queryString, blackList) {
        matchedString, hits := SearchIndex(index);
      }
      FillResult(hits);
    }

    method SetScoreOnDocMap(docId: nat, t: ScoreType, score: real)
      requires docId in documentMap
      modifies documentMap[docId].board
      ensures documentMap[docId].board.scoreMap == old(documentMap[docId].board.scoreMap)[t := Registered(t, score)]
    {
      documentMap[docId].board.SetScore(t, score);
    }

    /** What each pass does with a document: both of its score boards are updated. */
    method ScoreDocument(i: nat, t: ScoreType, score: real)
      requires Valid() && i < |documentList|
      modifies documentList[i].board, documentMap[documentList[i].doc.docId].board
      ensures Valid()
      ensures Scores() == old(Scores())[i := (documentList[i].doc, old(Scores())[i].1[t := Registered(t, score)])]
    {
      documentList[i].board.SetScore(t, score);
      SetScoreOnDocMap(documentList[i].doc.docId, t, score);
      assert forall j | 0 <= j < |documentList| && j != i ::
          documentList[j].board.scoreMap == old(documentList[j].board.scoreMap);
    }

    method CalculateEnvelopeWeights()
      requires Valid()
      modifies Boards()
      ensures Valid() && Scores() == Stamped(old(Scores()), ENV_ID, EnvelopeScore)
    {
      for i := 0 to |documentList|
        invariant Valid() && |Scores()| == |old(Scores())|
        invariant forall j | 0 <= j < i :: Scores()[j] == Stamped(old(Scores()), ENV_ID, EnvelopeScore)[j]
        invariant forall j | i <= j < |documentList| :: Scores()[j] == old(Scores())[j]
      {
        ScoreDocument(i, ENV_ID, EnvelopeScore(documentList[i].doc));
      }
    }

    method MatchCode(doc: Document, blackList: BlackList) returns (codeMatchPct: real)
      ensures codeMatchPct == CodeScore(queryString, correctedQueryString, hasFullTextMatched, blackList)(doc)
    {
      codeMatchPct := 0.0;
      var filtered := TrimPhrase(queryString, 3, blackList);
      var words := TokeniseStringIntoWordList(filtered);
      if hasFullTextMatched {
        if |words| == 1 && |filtered| >= 3 && |filtered| <= 4 && correctedQueryString == queryString {
          if ToUpper(filtered) == doc.location.iataCode {
            codeMatchPct := 1.0;
          }
        }
      }
    }

    method CalculateCodeMatches(blackList: BlackList)
      requires Valid()
      modifies Boards()
      ensures Valid()
      ensures Scores() == Stamped(old(Scores()), CODE_FULL_MATCH,
                                  CodeScore(queryString, correctedQueryString, hasFullTextMatched, blackList))
    {
      ghost var f := CodeScore(queryString, correctedQueryString, hasFullTextMatched, blackList);
      for i := 0 to |documentList|
        invariant Valid() && |Scores()| == |old(Scores())|
        invariant forall j | 0 <= j < i :: Scores()[j] == Stamped(old(Scores()), CODE_FULL_MATCH, f)[j]
        invariant forall j | i <= j < |documentList| :: Scores()[j] == old(Scores())[j]
      {
        var score := MatchCode(documentList[i].doc, blackList);
        ScoreDocument(i, CODE_FULL_MATCH, score);
      }
    }

    method CalculatePageRanks()
      requires Valid()
      modifies Boards()
      ensures Valid() && Scores() == Stamped(old(Scores()), PAGE_RANK, PageRankScore)
    {
      for i := 0 to |documentList|
        invariant Valid() && |Scores()| == |old(Scores())|
        invariant forall j | 0 <= j < i :: Scores()[j] == Stamped(old(Scores()), PAGE_RANK, PageRankScore)[j]
        invariant forall j | i <= j < |documentList| :: Scores()[j] == old(Scores())[j]
      {
        ScoreDocument(i, PAGE_RANK, PageRankScore(documentList[i].doc));
      }
    }

    method UnmatchedWeight(blackList: BlackList) returns (percentage: real)
      ensures percentage == NoMatchWeight(queryString, blackList)
    {
      var words := TokeniseStringIntoWordList(queryString);
      if |words| == 1 && ShouldKeep("", queryString, blackList) {
        percentage := 100.0;
      } else {
        percentage := 1.0 / Pow(1000.0, |words|);
      }
    }

    method SetBest(best: Best, percentage: real)
      requires Valid()
      modifies this`bestDocId, this`bestCombinedWeight, this`bestDocData
      ensures Valid() && Scores() == old(Scores()) && Boards() == old(Boards())
      ensures bestDocId == best.docId && bestDocData == best.data && bestCombinedWeight == percentage
    {
      bestDocId, bestCombinedWeight, bestDocData := best.docId, percentage, best.data;
    }

    lemma BestDocumentIsInTheMap()
      requires Valid() && BestOf(Scores()).weight > 0.0
      ensures var best := BestOf(Scores()); best.docId in documentMap && documentMap[best.docId].doc.data == best.data
    {
      BestIsTheFirstMaximum(Scores());
      var k: nat :| IsFirstBest(Scores(), k, BestOf(Scores()));
      assert documentMap[documentList[k].doc.docId].doc == documentList[k].doc;
    }

    method CombineDocument(i: nat) returns (percentage: real)
      requires Valid() && i < |documentList|
      modifies documentList[i].board
      ensures Valid() && percentage == Weight(old(Scores())[i])
      ensures Scores() == old(Scores())[i := Combined(old(Scores()))[i]]
    {
      percentage := documentList[i].board.CalculateCombinedWeight();
      assert forall j | 0 <= j < |documentList| && j != i ::
          documentList[j].board.scoreMap == old(documentList[j].board.scoreMap);
    }

    method BrowseDocuments() returns (best: Best)
      requires Valid()
      modifies Boards()
      ensures Valid() && Scores() == Combined(old(Scores()))
      ensures best == BestOf(old(Scores()))
    {
      ghost var ss := Scores();
      best := Best(0.0, 0, "");
      for i := 0 to |documentList|
        invariant Valid() && |Scores()| == |ss|
        invariant best == BestOf(ss[..i])
        invariant forall j | 0 <= j < i :: Scores()[j] == Combined(ss)[j]
        invariant forall j | i <= j < |documentList| :: Scores()[j] == ss[j]
      {
        var doc := documentList[i].doc;
        var percentage := CombineDocument(i);
        BestOfSnoc(ss, i);
        if percentage > best.weight {
          best := Best(percentage, doc.docId, doc.data);
        }
      }
      assert ss[..|documentList|] == ss;
    }

    /** The documents get their combined weights, in the list only, and the best
        of them is kept. A string with a full-text match must have a document
        of positive weight: the best document is looked up in the map. */
    method CalculateCombinedWeights(blackList: BlackList)
      requires Valid()
      requires hasFullTextMatched ==> BestOf(Scores()).weight > 0.0
      modifies this`bestDocId, this`bestCombinedWeight, this`bestDocData, Boards()
      ensures Valid() && Scores() == Combined(old(Scores())) && Boards() == old(Boards())
      ensures bestDocId == BestOf(old(Scores())).docId && bestDocData == BestOf(old(Scores())).data
      ensures bestCombinedWeight ==
              if hasFullTextMatched then BestOf(old(Scores())).weight else NoMatchWeight(queryString, blackList)
      ensures hasFullTextMatched ==> bestDocId in documentMap && documentMap[bestDocId].doc.data == bestDocData
    {
      if hasFullTextMatched {
        BestDocumentIsInTheMap();
      }
      var best := BrowseDocuments();
      var maxPercentage := best.weight;
      if !hasFullTextMatched {
        maxPercentage := UnmatchedWeight(blackList);
      }
      SetBest(best, maxPercentage);
    }

    /** A result does not change when neither its fields nor its score boards do. */
    twostate lemma StaysTheSame()
      requires old(Valid()) && unchanged(this) && forall b | b in old(Boards()) :: unchanged(b)
      ensures Valid() && Boards() == old(Boards()) && View() == old(View())
    {
    }

    /** One of the passes, on all the documents. */
    method RunPass(pass: Pass, blackList: BlackList)
      requires Valid()
      modifies Boards()
      ensures Valid() && View() == AfterPass(old(View()), pass, blackList)
    {
      match pass
      case ENVELOPES => CalculateEnvelopeWeights();
      case CODES => CalculateCodeMatches(blackList);
      case PAGE_RANKS => CalculatePageRanks();
    }
  }
}
