/** Cutting a query into slices, at the gaps between two consecutive words that
    give no full-text match (opentrep/bom/QuerySlices.cpp). */
module QuerySlicing {
  import opened Basics
  import opened Words
  import opened StringPartitions
  import opened Results

  /** Whether the juxtaposition of two words matches the index. */
  type Oracle = (string, string) -> bool

  /** Every two consecutive words match. */
  predicate Linked(p: seq<string>, m: Oracle) {
    |p| <= 1 || (m(p[0], p[1]) && Linked(p[1..], m))
  }

  predicate AllLinked(g: Grouping, m: Oracle) {
    forall p | p in g :: Linked(p, m)
  }

  /** The maximal linked runs of a word list; a list of at most one word is one run. */
  function Runs(ws: seq<string>, m: Oracle): (rs: Grouping)
    ensures rs != [] && (ws != [] ==> rs[0] != [])
  {
    if |ws| <= 1 then [ws]
    else
      var rest := Runs(ws[1..], m);
      if m(ws[0], ws[1]) then [[ws[0]] + rest[0]] + rest[1..] else [[ws[0]]] + rest
  }

  /** No two consecutive pieces could be merged: their facing words do not match. */
  ghost predicate Apart(rs: Grouping, m: Oracle) {
    |rs| <= 1 ||
    (rs[0] != [] && rs[1] != [] && !m(rs[0][|rs[0]| - 1], rs[1][0]) && Apart(rs[1..], m))
  }

  ghost predicate IsSlicing(rs: Grouping, ws: seq<string>, m: Oracle) {
    IsGrouping(rs, ws) && AllLinked(rs, m) && Apart(rs, m)
  }

  /** The number of gaps that give no match. */
  function Gaps(ws: seq<string>, m: Oracle): nat {
    if |ws| <= 1 then 0 else (if m(ws[0], ws[1]) then 0 else 1) + Gaps(ws[1..], m)
  }

  // ---------------------------------------------------------------------
  // Runs is the one slicing

  lemma {:induction false} RunsStartTheList(ws: seq<string>, m: Oracle)
    requires ws != []
    ensures Runs(ws, m)[0][0] == ws[0]
  {
  }

  /** A word goes in front of the first run when it matches its first word. */
  lemma SlicingExtends(w: string, rest: Grouping, m: Oracle)
    requires rest != [] && rest[0] != [] && m(w, rest[0][0])
    requires IsGrouping(rest, Flatten(rest)) && AllLinked(rest, m) && Apart(rest, m)
    ensures var rs := [[w] + rest[0]] + rest[1..];
            IsSlicing(rs, [w] + Flatten(rest), m)
  {
    var rs := [[w] + rest[0]] + rest[1..];
    assert rs[1..] == rest[1..];
    ConcatIsAssociative([w], rest[0], Flatten(rest[1..]));
    assert rs[0][1..] == rest[0] && rest[0] in rest;
    forall p | p in rs ensures p != [] && Linked(p, m) {
      assert p == rs[0] || p in rest;
    }
  }

  lemma {:induction false} RunsAreASlicing(ws: seq<string>, m: Oracle)
    requires ws != []
    ensures IsSlicing(Runs(ws, m), ws, m)
  {
    var rs := Runs(ws, m);
    if |ws| == 1 {
      assert rs[1..] == [];
    } else {
      var rest := Runs(ws[1..], m);
      RunsAreASlicing(ws[1..], m);
      RunsStartTheList(ws[1..], m);
      assert [ws[0]] + ws[1..] == ws;
      if m(ws[0], ws[1]) {
        SlicingExtends(ws[0], rest, m);
      } else {
        assert rs[1..] == rest;
      }
    }
  }

  lemma {:induction false} RunsOfLinked(ws: seq<string>, m: Oracle)
    requires ws != [] && Linked(ws, m)
    ensures Runs(ws, m) == [ws]
  {
    if |ws| > 1 {
      RunsOfLinked(ws[1..], m);
      assert [ws[0]] + ws[1..] == ws;
    }
  }

  /** The first non-matching gap ends the first run. */
  lemma {:induction false} RunsCutAt(ws: seq<string>, k: nat, m: Oracle)
    requires 0 < k < |ws| && Linked(ws[..k], m) && !m(ws[k - 1], ws[k])
    ensures Runs(ws, m) == [ws[..k]] + Runs(ws[k..], m)
  {
    if k == 1 {
      assert ws[..k] == [ws[0]];
    } else {
      var tail := ws[1..];
      assert ws[..k][1..] == tail[..k - 1];
      RunsCutAt(tail, k - 1, m);
      assert tail[k - 1..] == ws[k..];
      assert [ws[0]] + tail[..k - 1] == ws[..k];
    }
  }

  /** The slicing is unique: maximal runs can be cut in one way only. */
  lemma {:induction false} SlicingIsUnique(rs: Grouping, ws: seq<string>, m: Oracle)
    requires ws != [] && IsSlicing(rs, ws, m)
    ensures rs == Runs(ws, m)
    decreases |rs|
  {
    FlattenIsEmpty(rs);
    assert rs[0] in rs && rs == [rs[0]] + rs[1..];
    var k := |rs[0]|;
    var rest := ws[k..];
    assert ws[..k] == rs[0] && rest == Flatten(rs[1..]);
    assert forall p | p in rs[1..] :: p in rs;
    if |rs| == 1 {
      assert ws == rs[0];
      RunsOfLinked(ws, m);
    } else {
      assert rs[1] in rs && rest[0] == rs[1][0];
      RunsCutAt(ws, k, m);
      SlicingIsUnique(rs[1..], rest, m);
    }
  }

  lemma RunsIffSlicing(rs: Grouping, ws: seq<string>, m: Oracle)
    requires ws != []
    ensures rs == Runs(ws, m) <==> IsSlicing(rs, ws, m)
  {
    RunsAreASlicing(ws, m);
    if IsSlicing(rs, ws, m) {
      SlicingIsUnique(rs, ws, m);
    }
  }

  /** One slice, and one more for each gap without a match. */
  lemma {:induction false} RunsCount(ws: seq<string>, m: Oracle)
    ensures |Runs(ws, m)| == 1 + Gaps(ws, m)
  {
    if |ws| > 1 {
      RunsCount(ws[1..], m);
    }
  }

  // ---------------------------------------------------------------------
  // Choosing a grouping in each slice

  ghost predicate IsChoice(c: seq<Grouping>, rs: Grouping) {
    |c| == |rs| && forall i | 0 <= i < |rs| :: IsGrouping(c[i], rs[i])
  }

  lemma {:induction false} LinkedConcat(a: seq<string>, b: seq<string>, m: Oracle)
    requires Linked(a + b, m)
    ensures Linked(a, m) && Linked(b, m)
  {
    if a == [] {
      assert a + b == b;
    } else if |a + b| > 1 {
      assert (a + b)[1..] == a[1..] + b;
      LinkedConcat(a[1..], b, m);
    }
  }

  /** The pieces of a linked run are linked. */
  lemma {:induction false} PiecesOfLinked(g: Grouping, m: Oracle)
    requires Linked(Flatten(g), m)
    ensures AllLinked(g, m)
    decreases |g|
  {
    if g != [] {
      LinkedConcat(g[0], Flatten(g[1..]), m);
      PiecesOfLinked(g[1..], m);
      assert forall p | p in g :: p == g[0] || p in g[1..];
    }
  }

  /** A choice made in each slice is a grouping of the whole query that keeps
      no non-matching gap inside a piece. */
  lemma {:induction false} ChoiceIsALinkedGrouping(c: seq<Grouping>, rs: Grouping, m: Oracle)
    requires IsChoice(c, rs) && AllLinked(rs, m)
    ensures IsGrouping(Flatten(c), Flatten(rs)) && AllLinked(Flatten(c), m)
    decreases |c|
  {
    if c != [] {
      assert IsGrouping(c[0], rs[0]) && rs[0] in rs;
      PiecesOfLinked(c[0], m);
      assert forall i | 0 <= i < |c[1..]| :: c[1..][i] == c[i + 1] && rs[1..][i] == rs[i + 1];
      assert forall p | p in rs[1..] :: p in rs;
      ChoiceIsALinkedGrouping(c[1..], rs[1..], m);
      FlattenConcat(c[0], Flatten(c[1..]));
    }
  }

  /** A linked prefix lies within the first run; what is left of the query
      after it has the remaining runs. */
  lemma {:induction false} RunsAfterPrefix(ws: seq<string>, k: nat, m: Oracle)
    requires 0 < k <= |ws| && Linked(ws[..k], m)
    ensures var rs := Runs(ws, m);
            && k <= |rs[0]| && rs[0][..k] == ws[..k]
            && (k < |rs[0]| ==> k < |ws| && Runs(ws[k..], m) == [rs[0][k..]] + rs[1..])
            && (k == |rs[0]| && k < |ws| ==> rs[1..] == Runs(ws[k..], m))
            && (k == |ws| ==> rs == [ws])
  {
    var rs := Runs(ws, m);
    RunsAreASlicing(ws, m);
    if k == |ws| {
      assert ws[..k] == ws;
      RunsOfLinked(ws, m);
    } else {
      var tail := ws[1..];
      if k == 1 {
        assert tail == ws[k..];
        RunsStartTheList(ws, m);
      } else {
        assert ws[..k][1..] == tail[..k - 1];
        RunsAfterPrefix(tail, k - 1, m);
        assert tail[k - 1..] == ws[k..];
        assert rs[0][k..] == Runs(tail, m)[0][k - 1..];
      }
    }
  }

  lemma ChoiceOfWhole(g: Grouping, ws: seq<string>)
    requires IsGrouping(g, ws)
    ensures IsChoice([g], [ws]) && Flatten([g]) == g
  {
    assert [g][1..] == [];
  }

  lemma ChoiceExtends(c: seq<Grouping>, p: seq<string>, g: Grouping, rs: Grouping)
    requires rs != [] && 0 < |p| <= |rs[0]| && rs[0][..|p|] == p
    requires IsChoice(c, [rs[0][|p|..]] + rs[1..]) && Flatten(c) == g
    ensures var d := [[p] + c[0]] + c[1..]; IsChoice(d, rs) && Flatten(d) == [p] + g
  {
    var d := [[p] + c[0]] + c[1..];
    assert IsGrouping(c[0], rs[0][|p|..]);
    assert ([p] + c[0])[1..] == c[0];
    assert p + rs[0][|p|..] == rs[0];
    forall i | 0 <= i < |rs| ensures IsGrouping(d[i], rs[i]) {
      if i > 0 {
        assert d[i] == c[i];
      }
    }
    assert d[1..] == c[1..];
    ConcatIsAssociative([p], c[0], Flatten(c[1..]));
  }

  lemma ChoiceOpens(c: seq<Grouping>, p: seq<string>, g: Grouping, rs: Grouping)
    requires rs != [] && 0 < |p| && rs[0] == p
    requires IsChoice(c, rs[1..]) && Flatten(c) == g
    ensures IsChoice([[p]] + c, rs) && Flatten([[p]] + c) == [p] + g
  {
    assert Flatten([p]) == p by {
      assert [p][1..] == [];
    }
    var d := [[p]] + c;
    forall i | 0 <= i < |rs| ensures IsGrouping(d[i], rs[i]) {
      if i > 0 {
        assert d[i] == c[i - 1];
      }
    }
    assert d[1..] == c;
  }

  /** The choice that a grouping without non-matching gaps comes from. */
  ghost function ChoiceOf(g: Grouping, ws: seq<string>, m: Oracle): (c: seq<Grouping>)
    requires ws != [] && IsGrouping(g, ws) && AllLinked(g, m)
    ensures IsChoice(c, Runs(ws, m)) && Flatten(c) == g
    decreases |g|
  {
    FlattenIsEmpty(g);
    assert g[0] in g && g == [g[0]] + g[1..];
    var k := |g[0]|;
    assert ws[..k] == g[0] && ws[k..] == Flatten(g[1..]);
    assert forall p | p in g[1..] :: p in g;
    RunsAfterPrefix(ws, k, m);
    if k == |ws| then
      FlattenIsEmpty(g[1..]);
      ChoiceOfWhole(g, ws);
      [g]
    else
      var c := ChoiceOf(g[1..], ws[k..], m);
      var rs := Runs(ws, m);
      if k < |rs[0]| then
        ChoiceExtends(c, g[0], g[1..], rs);
        [[g[0]] + c[0]] + c[1..]
      else
        ChoiceOpens(c, g[0], g[1..], rs);
        [[g[0]]] + c
  }

  /** Two groupings of the same words, each followed by something, to the same effect. */
  lemma {:induction false} PrefixIsUnique(a: Grouping, b: Grouping, x: Grouping, y: Grouping)
    requires (forall p | p in a :: p != []) && (forall p | p in b :: p != [])
    requires a + x == b + y && Flatten(a) == Flatten(b)
    ensures a == b && x == y
    decreases |a|
  {
    FlattenIsEmpty(a);
    FlattenIsEmpty(b);
    if a != [] {
      assert a == [(a + x)[0]] + a[1..] && b == [(b + y)[0]] + b[1..];
      assert (forall p | p in a[1..] :: p in a) && (forall p | p in b[1..] :: p in b);
      assert a[1..] + x == (a + x)[1..] && b[1..] + y == (b + y)[1..];
      assert Flatten(a[1..]) == Flatten(a)[|a[0]|..] && Flatten(b[1..]) == Flatten(b)[|a[0]|..];
      PrefixIsUnique(a[1..], b[1..], x, y);
    } else {
      assert a + x == x && b + y == y;
    }
  }

  /** ... each once: different choices make different groupings. */
  lemma {:induction false} ChoiceIsUnique(c: seq<Grouping>, d: seq<Grouping>, rs: Grouping)
    requires IsChoice(c, rs) && IsChoice(d, rs) && Flatten(c) == Flatten(d)
    ensures c == d
    decreases |c|
  {
    if c != [] {
      assert IsGrouping(c[0], rs[0]) && IsGrouping(d[0], rs[0]);
      PrefixIsUnique(c[0], d[0], Flatten(c[1..]), Flatten(d[1..]));
      assert forall i | 0 <= i < |rs[1..]| ::
          c[1..][i] == c[i + 1] && d[1..][i] == d[i + 1] && rs[1..][i] == rs[i + 1];
      ChoiceIsUnique(c[1..], d[1..], rs[1..]);
      assert c == [c[0]] + c[1..] && d == [d[0]] + d[1..];
    }
  }

  ghost predicate IsFromChoice(g: Grouping, rs: Grouping) {
    exists c :: IsChoice(c, rs) && Flatten(c) == g
  }

  /** Slicing loses exactly the groupings that keep a non-matching gap inside a
      piece: the others are the choices of one grouping per slice ... */
  lemma SlicesCoverLinkedGroupings(ws: seq<string>, m: Oracle, g: Grouping)
    requires ws != []
    ensures IsGrouping(g, ws) && AllLinked(g, m) <==> IsFromChoice(g, Runs(ws, m))
  {
    var rs := Runs(ws, m);
    RunsAreASlicing(ws, m);
    if IsGrouping(g, ws) && AllLinked(g, m) {
      var c := ChoiceOf(g, ws, m);
      assert IsChoice(c, rs) && Flatten(c) == g;
    }
    if IsFromChoice(g, rs) {
      var c :| IsChoice(c, rs) && Flatten(c) == g;
      ChoiceIsALinkedGrouping(c, rs, m);
      assert IsGrouping(g, ws) && AllLinked(g, m);
    }
  }

  /** The number of entries over the partitions of all the slices. */
  function TotalEntries(rs: Grouping): nat {
    if rs == [] then 0 else |Groupings(rs[0])| + TotalEntries(rs[1..])
  }

  lemma {:induction false} Pow2Superadditive(a: nat, b: nat)
    ensures Pow2(a) + Pow2(b) <= Pow2(a + b + 1) && Pow2(a) > 0
  {
    if a > 0 {
      Pow2Superadditive(a - 1, b);
      Pow2Superadditive(0, b);
    } else if b > 0 {
      Pow2Superadditive(0, b - 1);
    }
  }

  /** Slicing never costs: over all slices, at most as many entries as the
      unsliced query has. */
  lemma {:induction false} SlicingShrinksTheSearch(rs: Grouping, ws: seq<string>)
    requires ws != [] && IsGrouping(rs, ws)
    ensures TotalEntries(rs) <= |Groupings(ws)|
    decreases |rs|
  {
    FlattenIsEmpty(rs);
    assert rs[0] in rs;
    assert forall p | p in rs[1..] :: p in rs;
    GroupingsCount(ws);
    GroupingsCount(rs[0]);
    if rs[1..] != [] {
      var rest := Flatten(rs[1..]);
      FlattenIsEmpty(rs[1..]);
      SlicingShrinksTheSearch(rs[1..], rest);
      GroupingsCount(rest);
      Pow2Superadditive(|rs[0]| - 1, |rest| - 1);
    }
  }

  // ---------------------------------------------------------------------
  // The class of the source

  /** Each run has its slice: the phrase it makes, and the groupings of its words. */
  ghost predicate SlicesHold(slices: seq<StringPartition>, runs: Grouping)
    reads slices
  {
    && |slices| == |runs|
    && forall i | 0 <= i < |runs| ::
         && slices[i].initialString == Join(runs[i])
         && slices[i].partition == RenderAll(Groupings(runs[i]))
  }

  lemma RunEnds(ws: seq<string>, start: nat, i: nat, m: Oracle)
    requires start < i < |ws| && Linked(ws[start..i], m) && !m(ws[i - 1], ws[i])
    ensures Runs(ws[start..], m) == [ws[start..i]] + Runs(ws[i..], m)
  {
    var tail := ws[start..];
    assert tail[..i - start] == ws[start..i] && tail[i - start..] == ws[i..];
    RunsCutAt(tail, i - start, m);
  }

  lemma {:induction false} LinkedSnoc(p: seq<string>, w: string, m: Oracle)
    requires p != [] && Linked(p, m) && m(p[|p| - 1], w)
    ensures Linked(p + [w], m)
  {
    if |p| > 1 {
      assert (p + [w])[1..] == p[1..] + [w];
      LinkedSnoc(p[1..], w, m);
    }
  }

  /** The state of the slicing loop at word i: done are the slices pushed, and
      the staging string holds the linked words from start up to i, excluded. */
  ghost predicate Staging(ws: seq<string>, m: Oracle, done: Grouping, start: nat, i: nat, staging: string) {
    && start <= i < |ws|
    && staging == Join(ws[start..i])
    && Linked(ws[start..i + 1], m)
    && done + Runs(ws[start..], m) == Runs(ws, m)
  }

  lemma StagingStarts(ws: seq<string>, m: Oracle)
    requires ws != []
    ensures Staging(ws, m, [], 0, 0, "")
  {
    assert ws[0..] == ws;
    assert [] + Runs(ws, m) == Runs(ws, m);
  }

  /** What staging one more word makes. */
  function Staged(staging: string, w: string, space: bool): string {
    (if space then staging + " " else staging) + w
  }

  lemma StagedWord(ws: seq<string>, start: nat, i: nat)
    requires AreWords(ws) && start <= i < |ws|
    ensures Join(ws[start..i]) == "" <==> i == start
    ensures Join(ws[start..i + 1]) == Staged(Join(ws[start..i]), ws[i], i > start)
    ensures Tokens(Join(ws[start..i + 1])) == ws[start..i + 1]
  {
    var tail := ws[start..];
    assert tail[..i - start] == ws[start..i] && tail[..i - start + 1] == ws[start..i + 1];
    JoinSnoc(tail, i - start);
    JoinIsEmpty(ws[start..i]);
    TokensOfJoin(ws[start..i + 1]);
  }

  lemma StagingStep(ws: seq<string>, m: Oracle, done: Grouping, start: nat, i: nat, staging: string)
    requires AreWords(ws) && Staging(ws, m, done, start, i, staging) && i + 1 < |ws|
    ensures var next := Staged(staging, ws[i], i > start);
            && next == Join(Tokens(next))
            && if m(ws[i], ws[i + 1]) then Staging(ws, m, done, start, i + 1, next)
               else Staging(ws, m, done + [Tokens(next)], i + 1, i + 1, "")
  {
    StagedWord(ws, start, i);
    if m(ws[i], ws[i + 1]) {
      LinkedSnoc(ws[start..i + 1], ws[i + 1], m);
      assert ws[start..i + 1] + [ws[i + 1]] == ws[start..i + 2];
    } else {
      RunEnds(ws, start, i + 1, m);
      ConcatIsAssociative(done, [ws[start..i + 1]], Runs(ws[i + 1..], m));
    }
  }

  lemma StagingEnds(ws: seq<string>, m: Oracle, done: Grouping, start: nat, i: nat, staging: string)
    requires AreWords(ws) && Staging(ws, m, done, start, i, staging) && i + 1 == |ws|
    ensures var last := Staged(staging, ws[i], staging != "");
            last == Join(Tokens(last)) && done + [Tokens(last)] == Runs(ws, m)
  {
    StagedWord(ws, start, i);
    assert ws[start..i + 1] == ws[start..];
    RunsOfLinked(ws[start..], m);
  }

  /** Two words match when looking them up together finds anything. */
  function Juxtaposes(index: Index): Oracle {
    (a: string, b: string) => LookUp(index, a + " " + b).hasMatched
  }

  /** The look-up of the source stands here a second time, on the same index. */
  method DoesMatch(index: Index, word1: string, word2: string) returns (matches: bool)
    ensures matches == Juxtaposes(index)(word1, word2)
    ensures var q := word1 + " " + word2; var c := index.suggest(q, |q| / 4);
            matches <==> index.search(q) != [] || (c != "" && index.search(c) != [])
  {
    var query := word1 + " " + word2;
    var hits := index.search(query);
    if hits != [] {
      return true;
    }
    var corrected := index.suggest(query, |query| / SIZE_FOR_SPELLING_ERROR_UNIT);
    if corrected == "" || corrected == query {
      return false;
    }
    hits := index.search(corrected);
    matches := hits != [];
  }

  class QuerySlices {
    const index: Index
    var queryString: string
    var slices: seq<StringPartition>
    var itLeftWords: string

    /** The query is first stripped of its punctuation and quotation characters. */
    constructor (query: string, index: Index, unpunctuate: string -> string, unquote: string -> string)
      ensures this.index == index
      ensures queryString == unquote(unpunctuate(query))
      ensures |Tokens(queryString)| >= 2 ==> SlicesHold(slices, Runs(Tokens(queryString), Juxtaposes(index)))
      ensures |Tokens(queryString)| <= 1 ==>
                && |slices| == 1 && slices[0].initialString == queryString
                && slices[0].partition == Partition(queryString)
    {
      this.index := index;
      queryString := unquote(unpunctuate(query));
      slices := [];
      itLeftWords := "";
      new;
      Init();
    }

    method PushSlice(phrase: string, ghost done: Grouping)
      requires SlicesHold(slices, done)
      modifies this`slices
      ensures phrase == Join(Tokens(phrase)) ==> SlicesHold(slices, done + [Tokens(phrase)])
      ensures |slices| == |done| + 1
      ensures slices[|done|].initialString == phrase && slices[|done|].partition == Partition(phrase)
    {
      var slice := new StringPartition(phrase);
      slices := slices + [slice];
    }

    /** The word goes behind those of the staging string, after a space if there are any. */
    method StageLeftWord(leftWord: string, space: bool)
      modifies this`itLeftWords
      ensures itLeftWords == Staged(old(itLeftWords), leftWord, space)
    {
      if space {
        itLeftWords := itLeftWords + " ";
      }
      itLeftWords := itLeftWords + leftWord;
    }

    /** The body of the loop: the left word joins the staging string, which
        becomes a slice when the two words give no match. */
    method StageWord(words: seq<string>, itWord: nat, idxRel: nat, ghost start: nat, ghost done: Grouping)
      returns (idxRel': nat, ghost start': nat, ghost done': Grouping)
      requires AreWords(words) && start <= itWord && itWord + 1 < |words| && idxRel == itWord - start + 1
      requires Staging(words, Juxtaposes(index), done, start, itWord, itLeftWords)
      requires SlicesHold(slices, done)
      modifies this`slices, this`itLeftWords
      ensures start' <= itWord + 1 && idxRel' == itWord - start' + 1
      ensures Staging(words, Juxtaposes(index), done', start', itWord + 1, itLeftWords)
      ensures SlicesHold(slices, done')
    {
      hide *;
      idxRel', start', done' := idxRel, start, done;
      var leftWord, rightWord := words[itWord], words[itWord + 1];
      StagingStep(words, Juxtaposes(index), done, start, itWord, itLeftWords);
      StageLeftWord(leftWord, idxRel >= 2);
      var matches := DoesMatch(index, leftWord, rightWord);
      if !matches {
        PushSlice(itLeftWords, done);
        done', start' := done + [Tokens(itLeftWords)], itWord + 1;
        itLeftWords := "";
        idxRel' := 0;
      }
    }

    method StageLastWord(words: seq<string>, itWord: nat, ghost start: nat, ghost done: Grouping)
      requires AreWords(words) && itWord + 1 == |words|
      requires Staging(words, Juxtaposes(index), done, start, itWord, itLeftWords)
      requires SlicesHold(slices, done)
      modifies this`slices, this`itLeftWords
      ensures SlicesHold(slices, Runs(words, Juxtaposes(index)))
    {
      StagingEnds(words, Juxtaposes(index), done, start, itWord, itLeftWords);
      StageLeftWord(words[itWord], itLeftWords != "");
      PushSlice(itLeftWords, done);
    }

    method SliceWords(words: seq<string>)
      requires AreWords(words) && words != []
      requires slices == [] && itLeftWords == ""
      modifies this`slices, this`itLeftWords
      ensures SlicesHold(slices, Runs(words, Juxtaposes(index)))
    {
      ghost var start: nat, done: Grouping := 0, [];
      StagingStarts(words, Juxtaposes(index));
      var itWord, idxRel := 0, 1;
      while itWord + 1 < |words|
        invariant start <= itWord < |words| && idxRel == itWord - start + 1
        invariant Staging(words, Juxtaposes(index), done, start, itWord, itLeftWords)
        invariant SlicesHold(slices, done)
      {
        idxRel, start, done := StageWord(words, itWord, idxRel, start, done);
        itWord := itWord + 1;
        idxRel := idxRel + 1;
      }
      StageLastWord(words, itWord, start, done);
    }

    method Init()
      requires slices == [] && itLeftWords == ""
      modifies this
      ensures queryString == old(queryString)
      ensures |Tokens(queryString)| >= 2 ==> SlicesHold(slices, Runs(Tokens(queryString), Juxtaposes(index)))
      ensures |Tokens(queryString)| <= 1 ==>
                && |slices| == 1 && slices[0].initialString == queryString
                && slices[0].partition == Partition(queryString)
    {
      var words := TokeniseStringIntoWordList(queryString);
      TokensAreWords(queryString);
      if |words| <= 1 {
        PushSlice(queryString, []);
      } else {
        SliceWords(words);
      }
    }
  }
}
