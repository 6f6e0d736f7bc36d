/** Every way to group, serially, the words of a phrase
    (opentrep/bom/StringPartition.cpp, opentrep/bom/StringSet.cpp). */
module StringPartitions {
  import opened Basics
  import opened Words

  /** A grouping of a word list: its pieces, from left to right. */
  type Grouping = seq<seq<string>>

  function Flatten<T>(g: seq<seq<T>>): seq<T> {
    if g == [] then [] else g[0] + Flatten(g[1..])
  }

  ghost predicate IsGrouping(g: Grouping, ws: seq<string>) {
    (forall p | p in g :: p != []) && Flatten(g) == ws
  }

  lemma {:induction false} FlattenIsEmpty<T>(g: seq<seq<T>>)
    requires forall p | p in g :: p != []
    ensures Flatten(g) == [] <==> g == []
  {
    if g != [] {
      assert g[0] in g;
    }
  }

  function Prepend<T>(x: T, gs: seq<seq<T>>): (r: seq<seq<T>>)
    ensures |r| == |gs|
    ensures forall i | 0 <= i < |gs| :: r[i] == [x] + gs[i]
  {
    seq(|gs|, i requires 0 <= i < |gs| => [x] + gs[i])
  }

  /** The groupings of ws, the first piece of which has at least k words. */
  function GroupingsFrom(ws: seq<string>, k: nat): seq<Grouping>
    requires 1 <= k <= |ws|
    decreases |ws|, 0, |ws| - k
  {
    if k == |ws| then [[ws]]
    else Prepend(ws[..k], Groupings(ws[k..])) + GroupingsFrom(ws, k + 1)
  }

  /** The groupings of a word list; the empty list has the empty grouping only. */
  function Groupings(ws: seq<string>): seq<Grouping>
    decreases |ws|, 1, 0
  {
    if ws == [] then [[]] else GroupingsFrom(ws, 1)
  }

  // ---------------------------------------------------------------------
  // Sound and complete

  lemma {:induction false} GroupingsFromAreSound(ws: seq<string>, k: nat, i: nat)
    requires 1 <= k <= |ws| && i < |GroupingsFrom(ws, k)|
    ensures var g := GroupingsFrom(ws, k)[i]; IsGrouping(g, ws) && g != [] && k <= |g[0]|
    decreases |ws|, 0, |ws| - k
  {
    if k == |ws| {
      assert [ws][1..] == [];
    } else {
      var rest := Groupings(ws[k..]);
      if i < |rest| {
        GroupingsAreSound(ws[k..], i);
        assert ([ws[..k]] + rest[i])[1..] == rest[i];
      } else {
        GroupingsFromAreSound(ws, k + 1, i - |rest|);
      }
    }
  }

  lemma {:induction false} GroupingsAreSound(ws: seq<string>, i: nat)
    requires i < |Groupings(ws)|
    ensures IsGrouping(Groupings(ws)[i], ws)
    decreases |ws|, 1, 0
  {
    if ws != [] {
      GroupingsFromAreSound(ws, 1, i);
    }
  }

  ghost function PositionFrom(g: Grouping, ws: seq<string>, k: nat): (i: nat)
    requires IsGrouping(g, ws) && 1 <= k <= |ws| && g != [] && k <= |g[0]|
    ensures i < |GroupingsFrom(ws, k)| && GroupingsFrom(ws, k)[i] == g
    decreases |ws|, 0, |ws| - k
  {
    assert g[0] == ws[..|g[0]|] && Flatten(g[1..]) == ws[|g[0]|..];
    assert forall p | p in g[1..] :: p in g;
    assert g == [g[0]] + g[1..];
    if k == |ws| then
      assert g[1..] == [] by { FlattenIsEmpty(g[1..]); }
      assert g[0] == ws;
      0
    else if k == |g[0]| then
      Position(g[1..], ws[k..])
    else
      |Groupings(ws[k..])| + PositionFrom(g, ws, k + 1)
  }

  /** Where a grouping stands in the list. */
  ghost function Position(g: Grouping, ws: seq<string>): (i: nat)
    requires IsGrouping(g, ws)
    ensures i < |Groupings(ws)| && Groupings(ws)[i] == g
    decreases |ws|, 1, 0
  {
    if ws == [] then
      assert g == [] by { FlattenIsEmpty(g); }
      0
    else
      assert g != [] && g[0] in g;
      PositionFrom(g, ws, 1)
  }

  /** The list holds exactly the ways to cut the words into contiguous non-empty pieces. */
  lemma GroupingsAreAllGroupings(ws: seq<string>, g: Grouping)
    ensures g in Groupings(ws) <==> IsGrouping(g, ws)
  {
    if g in Groupings(ws) {
      var i :| 0 <= i < |Groupings(ws)| && Groupings(ws)[i] == g;
      GroupingsAreSound(ws, i);
    }
    if IsGrouping(g, ws) {
      var i := Position(g, ws);
    }
  }

  // ---------------------------------------------------------------------
  // Their number, and their order

  lemma {:induction false} GroupingsFromCount(ws: seq<string>, k: nat)
    requires 1 <= k <= |ws|
    ensures |GroupingsFrom(ws, k)| == Pow2(|ws| - k)
    decreases |ws|, 0, |ws| - k
  {
    if k < |ws| {
      GroupingsCount(ws[k..]);
      GroupingsFromCount(ws, k + 1);
    }
  }

  lemma {:induction false} GroupingsCount(ws: seq<string>)
    ensures |Groupings(ws)| == if ws == [] then 1 else Pow2(|ws| - 1)
    decreases |ws|, 1, 0
  {
    if ws != [] {
      GroupingsFromCount(ws, 1);
    }
  }

  function Sizes(g: Grouping): seq<nat> {
    seq(|g|, i requires 0 <= i < |g| => |g[i]|)
  }

  predicate LexLess(a: seq<nat>, b: seq<nat>) {
    b != [] && (a == [] || a[0] < b[0] || (a[0] == b[0] && LexLess(a[1..], b[1..])))
  }

  lemma LexLessIsIrreflexive(a: seq<nat>)
    ensures !LexLess(a, a)
  {
  }

  lemma {:induction false} GroupingsFromAreOrdered(ws: seq<string>, k: nat, i: nat, j: nat)
    requires 1 <= k <= |ws| && i < j < |GroupingsFrom(ws, k)|
    ensures LexLess(Sizes(GroupingsFrom(ws, k)[i]), Sizes(GroupingsFrom(ws, k)[j]))
    decreases |ws|, 0, |ws| - k
  {
    if k < |ws| {
      var rest := Groupings(ws[k..]);
      var gi, gj := GroupingsFrom(ws, k)[i], GroupingsFrom(ws, k)[j];
      if i >= |rest| {
        GroupingsFromAreOrdered(ws, k + 1, i - |rest|, j - |rest|);
      } else if j >= |rest| {
        GroupingsFromAreSound(ws, k + 1, j - |rest|);
        assert Sizes(gi)[0] == k && Sizes(gj)[0] >= k + 1;
      } else {
        GroupingsAreOrdered(ws[k..], i, j);
        assert Sizes(gi)[1..] == Sizes(rest[i]);
        assert Sizes(gj)[1..] == Sizes(rest[j]);
      }
    }
  }

  /** The list is in strict lexicographic order of the piece sizes. */
  lemma {:induction false} GroupingsAreOrdered(ws: seq<string>, i: nat, j: nat)
    requires i < j < |Groupings(ws)|
    ensures LexLess(Sizes(Groupings(ws)[i]), Sizes(Groupings(ws)[j]))
    decreases |ws|, 1, 0
  {
    if ws != [] {
      GroupingsFromAreOrdered(ws, 1, i, j);
    }
  }

  lemma GroupingsAreDistinct(ws: seq<string>, i: nat, j: nat)
    requires i < j < |Groupings(ws)|
    ensures Groupings(ws)[i] != Groupings(ws)[j]
  {
    GroupingsAreOrdered(ws, i, j);
    LexLessIsIrreflexive(Sizes(Groupings(ws)[i]));
  }

  function Singletons(ws: seq<string>): (g: Grouping)
    ensures |g| == |ws| && forall i | 0 <= i < |ws| :: g[i] == [ws[i]]
  {
    seq(|ws|, i requires 0 <= i < |ws| => [ws[i]])
  }

  lemma {:induction false} LastGrouping(ws: seq<string>, k: nat)
    requires 1 <= k <= |ws|
    ensures |GroupingsFrom(ws, k)| > 0 && GroupingsFrom(ws, k)[|GroupingsFrom(ws, k)| - 1] == [ws]
    decreases |ws| - k
  {
    if k < |ws| {
      LastGrouping(ws, k + 1);
    }
  }

  /** The list opens with the words one by one, and closes with the whole phrase. */
  lemma {:induction false} FirstAndLastGroupings(ws: seq<string>)
    requires ws != []
    ensures |Groupings(ws)| > 0
    ensures Groupings(ws)[0] == Singletons(ws)
    ensures Groupings(ws)[|Groupings(ws)| - 1] == [ws]
    decreases |ws|
  {
    LastGrouping(ws, 1);
    if |ws| == 1 {
      assert ws == [ws[0]];
      assert Groupings(ws)[0] == [ws] == Singletons(ws);
    } else {
      var tail := ws[1..];
      FirstAndLastGroupings(tail);
      assert ws[..1] == [ws[0]];
      assert Singletons(ws) == [ws[..1]] + Singletons(tail);
    }
  }

  // ---------------------------------------------------------------------
  // The pieces

  lemma {:induction false} PiecesAreInTheList(g: Grouping, i: nat, w: string)
    requires i < |g| && w in g[i]
    ensures w in Flatten(g)
  {
    if i > 0 {
      PiecesAreInTheList(g[1..], i - 1, w);
    }
  }

  lemma {:induction false} PieceIsAPart(g: Grouping, k: nat) returns (i: nat)
    requires k < |g|
    ensures i + |g[k]| <= |Flatten(g)| && Flatten(g)[i..i + |g[k]|] == g[k]
  {
    if k == 0 {
      i := 0;
    } else {
      i := PieceIsAPart(g[1..], k - 1);
      i := i + |g[0]|;
    }
  }

  lemma OnePieceIsTheWhole(g: Grouping, ws: seq<string>)
    requires IsGrouping(g, ws) && |g| == 1
    ensures g == [ws]
  {
    assert Flatten(g) == g[0] + Flatten(g[1..]) && g[1..] == [];
    assert g[0] + [] == g[0];
    assert g == [ws];
  }

  lemma {:induction false} PiecesAreShorter(g: Grouping, k: nat)
    requires k < |g| && forall p | p in g :: p != []
    ensures |Flatten(g)| >= |g[k]| + |g| - 1
    decreases |g|
  {
    assert forall p | p in g[1..] :: p in g;
    assert g[0] in g;
    if |g| > 1 {
      PiecesAreShorter(g[1..], if k == 0 then 0 else k - 1);
      assert g[1] in g;
    }
  }

  lemma {:induction false} FlattenConcat<T>(g: seq<seq<T>>, h: seq<seq<T>>)
    ensures Flatten(g + h) == Flatten(g) + Flatten(h)
  {
    if g == [] {
      assert g + h == h;
    } else {
      FlattenConcat(g[1..], h);
      assert (g + h)[1..] == g[1..] + h;
      assert Flatten(g + h) == g[0] + (Flatten(g[1..]) + Flatten(h));
    }
  }

  lemma {:induction false} FlattenSingletons(ws: seq<string>)
    ensures Flatten(Singletons(ws)) == ws
  {
    if ws != [] {
      FlattenSingletons(ws[1..]);
      assert Singletons(ws)[1..] == Singletons(ws[1..]);
    }
  }

  /** The grouping that puts one part of the words together. */
  function Joined(ws: seq<string>, i: nat, j: nat): Grouping
    requires i < j <= |ws|
  {
    Singletons(ws[..i]) + ([ws[i..j]] + Singletons(ws[j..]))
  }

  lemma FlattenOne(p: seq<string>)
    ensures Flatten([p]) == p
  {
    assert [p][1..] == [];
  }

  lemma FlattenJoined(ws: seq<string>, i: nat, j: nat)
    requires i < j <= |ws|
    ensures Flatten(Joined(ws, i, j)) == ws
  {
    hide Flatten;
    hide Singletons;
    var left, right := Singletons(ws[..i]), Singletons(ws[j..]);
    FlattenConcat(left, [ws[i..j]] + right);
    FlattenConcat([ws[i..j]], right);
    FlattenSingletons(ws[..i]);
    FlattenSingletons(ws[j..]);
    FlattenOne(ws[i..j]);
    assert ws == ws[..i] + (ws[i..j] + ws[j..]);
  }

  lemma JoinedIsAGrouping(ws: seq<string>, i: nat, j: nat)
    requires i < j <= |ws|
    ensures IsGrouping(Joined(ws, i, j), ws)
  {
    FlattenJoined(ws, i, j);
    hide Flatten;
    forall p | p in Joined(ws, i, j) ensures p != [] {
    }
  }

  // ---------------------------------------------------------------------
  // As strings

  /** The pieces of a grouping, each as a phrase. */
  function Render(g: Grouping): (r: seq<string>)
    ensures |r| == |g|
    ensures forall i | 0 <= i < |g| :: r[i] == Join(g[i])
  {
    seq(|g|, i requires 0 <= i < |g| => Join(g[i]))
  }

  function RenderAll(gs: seq<Grouping>): (r: seq<seq<string>>)
    ensures |r| == |gs|
    ensures forall i | 0 <= i < |gs| :: r[i] == Render(gs[i])
  {
    seq(|gs|, i requires 0 <= i < |gs| => Render(gs[i]))
  }

  /** A list of strings made of one string, unless it is empty. */
  function StringSetOf(s: string): seq<string> {
    if s == "" then [] else [s]
  }

  /** What the constructor of StringPartition leaves in its list. */
  function Partition(phrase: string): seq<seq<string>> {
    RenderAll(Groupings(Tokens(phrase)))
  }

  /** Joining the pieces of a grouping gives the whole phrase. */
  lemma {:induction false} PiecesJoinBack(g: Grouping, ws: seq<string>)
    requires IsGrouping(g, ws)
    ensures Join(Render(g)) == Join(ws)
    decreases |g|
  {
    if |g| == 1 {
      assert g[1..] == [];
      assert ws == g[0];
    } else if g != [] {
      assert g[0] in g;
      assert forall p | p in g[1..] :: p in g;
      FlattenIsEmpty(g[1..]);
      PiecesJoinBack(g[1..], Flatten(g[1..]));
      assert Render(g)[1..] == Render(g[1..]);
      JoinConcat(g[0], Flatten(g[1..]));
    }
  }

  lemma {:induction false} PiecesAreWords(g: Grouping, i: nat)
    requires AreWords(Flatten(g)) && i < |g|
    ensures AreWords(g[i])
    decreases |g|
  {
    assert forall w | w in g[0] :: w in Flatten(g);
    assert forall w | w in Flatten(g[1..]) :: w in Flatten(g);
    if i > 0 {
      PiecesAreWords(g[1..], i - 1);
    }
  }

  /** No two groupings of the same words are written the same way, whatever the
      repetitions among the words. */
  lemma RenderIsInjective(a: Grouping, b: Grouping, ws: seq<string>)
    requires AreWords(ws) && IsGrouping(a, ws) && IsGrouping(b, ws)
    requires Render(a) == Render(b)
    ensures a == b
  {
    assert |a| == |Render(a)| == |b|;
    forall i | 0 <= i < |a| ensures a[i] == b[i] {
      PiecesAreWords(a, i);
      PiecesAreWords(b, i);
      assert Join(a[i]) == Render(a)[i] == Render(b)[i] == Join(b[i]);
      JoinIsInjective(a[i], b[i]);
    }
  }

  /** The list of StringPartition, for every phrase: 2^(n-1) entries, no two
      alike, each joining back to the normalised phrase, and none missing. */
  lemma PartitionListsEachGroupingOnce(phrase: string)
    ensures var ws := Tokens(phrase); var p := Partition(phrase);
            && |p| == (if ws == [] then 1 else Pow2(|ws| - 1))
            && (forall i, j | 0 <= i < j < |p| :: p[i] != p[j])
            && (forall i | 0 <= i < |p| :: Join(p[i]) == Join(ws))
            && (forall x :: x in p <==> exists g :: IsGrouping(g, ws) && x == Render(g))
  {
    var ws := Tokens(phrase);
    var gs := Groupings(ws);
    var p := Partition(phrase);
    GroupingsCount(ws);
    TokensAreWords(phrase);
    forall i | 0 <= i < |p| ensures IsGrouping(gs[i], ws) && Join(p[i]) == Join(ws) {
      GroupingsAreSound(ws, i);
      PiecesJoinBack(gs[i], ws);
    }
    forall i, j | 0 <= i < j < |p| ensures p[i] != p[j] {
      GroupingsAreDistinct(ws, i, j);
      if p[i] == p[j] {
        RenderIsInjective(gs[i], gs[j], ws);
      }
    }
    forall x ensures x in p <==> exists g :: IsGrouping(g, ws) && x == Render(g) {
      if x in p {
        var i :| 0 <= i < |p| && p[i] == x;
        assert IsGrouping(gs[i], ws) && x == Render(gs[i]);
      }
      if g :| IsGrouping(g, ws) && x == Render(g) {
        var i := Position(g, ws);
        assert p[i] == x;
      }
    }
  }

  // ---------------------------------------------------------------------
  // The class of the source

  /** The entries that the loop of StringPartition.Init has still to push when
      it reaches index k, the closing one included. */
  function PartitionFrom(ws: seq<string>, k: nat): seq<seq<string>>
    requires 1 <= k <= |ws|
  {
    RenderAll(GroupingsFrom(ws, k))
  }

  lemma PartitionOfOne(ws: seq<string>)
    requires AreWords(ws) && |ws| <= 1
    ensures RenderAll(Groupings(ws)) == [StringSetOf(Join(ws))]
  {
    JoinIsEmpty(ws);
    if ws == [] {
      assert Render([]) == [];
    } else {
      assert Groupings(ws) == [[ws]] && Render([ws]) == [Join(ws)];
    }
  }

  /** The loop leaves the whole phrase to push. */
  lemma PartitionFromEnds(ws: seq<string>)
    requires AreWords(ws) && |ws| > 1
    ensures PartitionFrom(ws, |ws|) == [StringSetOf(Join(ws))]
  {
    JoinIsEmpty(ws);
    assert GroupingsFrom(ws, |ws|) == [[ws]];
    assert Render([ws]) == [Join(ws)];
  }

  lemma RenderPrepend(x: seq<string>, gs: seq<Grouping>)
    ensures RenderAll(Prepend(x, gs)) == Prepend(Join(x), RenderAll(gs))
  {
    hide Join;
    forall i | 0 <= i < |gs| ensures Render([x] + gs[i]) == [Join(x)] + Render(gs[i]) {
    }
  }

  lemma RenderConcat(gs: seq<Grouping>, hs: seq<Grouping>)
    ensures RenderAll(gs + hs) == RenderAll(gs) + RenderAll(hs)
  {
    hide Join;
    hide Render;
  }

  /** One turn of that loop. */
  lemma PartitionFromStep(ws: seq<string>, k: nat, left: string, right: string)
    requires AreWords(ws) && 1 <= k < |ws|
    requires left == Join(SplitPart(ws, k, true)) && right == Join(SplitPart(ws, k, false))
    ensures |Tokens(right)| < |ws|
    ensures PartitionFrom(ws, k) == Prepend(left, Partition(right)) + PartitionFrom(ws, k + 1)
  {
    TokensOfJoin(ws[k..]);
    hide RenderAll;
    hide Groupings;
    hide Prepend;
    hide Join;
    hide Tokens;
    var gs := Groupings(ws[k..]);
    RenderPrepend(ws[..k], gs);
    RenderConcat(Prepend(ws[..k], gs), GroupingsFrom(ws, k + 1));
  }

  class StringPartition {
    const initialString: string
    var partition: seq<seq<string>>

    constructor (phrase: string)
      ensures initialString == phrase
      ensures partition == Partition(phrase)
      decreases |Tokens(phrase)|, 1
    {
      initialString := phrase;
      partition := [];
      new;
      Init(phrase);
    }

    /** Pushes each sub-list of the right-hand side, behind the left-hand string. */
    method PushPrefixed(left: string, rhsPartition: seq<seq<string>>)
      modifies this
      ensures partition == old(partition) + Prepend(left, rhsPartition)
    {
      for i := 0 to |rhsPartition|
        invariant partition == old(partition) + Prepend(left, rhsPartition)[..i]
      {
        var newStringSet := [left] + rhsPartition[i];
        partition := partition + [newStringSet];
      }
    }

    method Init(phrase: string)
      requires partition == []
      modifies this
      ensures partition == Partition(phrase)
      decreases |Tokens(phrase)|, 0
    {
      var words := TokeniseStringIntoWordList(phrase);
      var nbOfWords := |words|;
      TokensAreWords(phrase);
      var whole := CreateStringFromWordList(words);
      var stringSet := StringSetOf(whole);

      if nbOfWords <= 1 {
        PartitionOfOne(words);
        partition := partition + [stringSet];
        return;
      }

      var idx := 1;
      while idx != nbOfWords
        invariant 1 <= idx <= nbOfWords
        invariant partition + PartitionFrom(words, idx) == Partition(phrase)
      {
        ghost var done := partition;
        var left := CreateStringFromWordList(words, idx);
        var right := CreateStringFromWordList(words, idx, false);
        PartitionFromStep(words, idx, left, right);
        var rhs := new StringPartition(right);
        PushPrefixed(left, rhs.partition);
        ConcatIsAssociative(done, Prepend(left, Partition(right)), PartitionFrom(words, idx + 1));
        idx := idx + 1;
      }
      PartitionFromEnds(words);
      partition := partition + [stringSet];
    }
  }
}
