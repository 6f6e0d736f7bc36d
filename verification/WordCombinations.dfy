/** The word combinations under which a name is indexed
    (opentrep/bom/WordCombinationHolder.cpp, opentrep/bom/StringPartition.cpp). */
module WordCombinations {
  import opened Basics
  import opened Words
  import opened StringPartitions

  // ---------------------------------------------------------------------
  // Ordered sets of strings: they are browsed in lexicographic order

  predicate Less(a: string, b: string) {
    b != "" && (a == "" || a[0] < b[0] || (a[0] == b[0] && Less(a[1..], b[1..])))
  }

  /** The strings differ first at index k, where a ends or has the smaller character. */
  predicate DifferAt(a: string, b: string, k: nat) {
    k <= |a| && k < |b| && a[..k] == b[..k] && (k == |a| || a[k] < b[k])
  }

  lemma PrefixesAgree(a: string, b: string, k: nat)
    requires DifferAt(a, b, k) && k > 0
    ensures a != "" && b != "" && a[0] == b[0]
  {
    assert a[..k][0] == b[..k][0];
  }

  lemma {:induction false} LessIff(a: string, b: string)
    ensures Less(a, b) <==> exists k: nat :: DifferAt(a, b, k)
  {
    if a != "" && b != "" && a[0] == b[0] {
      LessIff(a[1..], b[1..]);
      if Less(a[1..], b[1..]) {
        var k: nat :| DifferAt(a[1..], b[1..], k);
        assert a[..k + 1] == [a[0]] + a[1..][..k] && b[..k + 1] == [b[0]] + b[1..][..k];
        assert DifferAt(a, b, k + 1);
      }
      if k: nat :| DifferAt(a, b, k) {
        assert k > 0;
        assert a[1..][..k - 1] == a[..k][1..] && b[1..][..k - 1] == b[..k][1..];
        assert DifferAt(a[1..], b[1..], k - 1);
      }
    } else {
      assert Less(a, b) ==> DifferAt(a, b, 0);
      if k: nat :| DifferAt(a, b, k) {
        if k > 0 {
          PrefixesAgree(a, b, k);
        }
      }
    }
  }

  lemma {:induction false} LessIsTotal(a: string, b: string)
    ensures a == b || Less(a, b) || Less(b, a)
    ensures !Less(a, a)
  {
    if a != "" {
      LessIsTotal(a[1..], if b == "" then "" else b[1..]);
      if b != "" && a[0] == b[0] && a[1..] == b[1..] {
        assert a == [a[0]] + a[1..] && b == [b[0]] + b[1..];
      }
    }
  }

  lemma {:induction false} LessIsTransitive(a: string, b: string, c: string)
    requires Less(a, b) && Less(b, c)
    ensures Less(a, c)
  {
    if a != "" && a[0] == b[0] == c[0] {
      LessIsTransitive(a[1..], b[1..], c[1..]);
    }
  }

  ghost predicate IsLeast(m: string, s: set<string>) {
    m in s && forall t | t in s :: t == m || Less(m, t)
  }

  lemma {:induction false} LeastExists(s: set<string>) returns (m: string)
    requires s != {}
    ensures IsLeast(m, s)
    decreases |s|
  {
    var x :| x in s;
    if s == {x} {
      m := x;
    } else {
      var rest := s - {x};
      m := LeastExists(rest);
      LessIsTotal(x, m);
      if Less(x, m) {
        forall t | t in rest ensures Less(x, t) {
          if t != m {
            LessIsTransitive(x, m, t);
          }
        }
        m := x;
      }
    }
  }

  /** The elements of a set, each once, in ascending order. */
  ghost predicate IsListing(list: seq<string>, s: set<string>) {
    && (forall i, j | 0 <= i < j < |list| :: Less(list[i], list[j]))
    && (forall t :: t in list <==> t in s)
  }

  lemma FirstIsListed(a: seq<string>, s: set<string>)
    requires IsListing(a, s) && a != []
    ensures a[0] in s
  {
    assert a[0] in a;
  }

  lemma FirstIsLeast(a: seq<string>, s: set<string>)
    requires IsListing(a, s) && s != {}
    ensures a != [] && IsLeast(a[0], s)
  {
    var x :| x in s;
    assert x in a;
    assert a[0] in a;
  }

  lemma LessIsAsymmetric(a: string, b: string)
    ensures !(Less(a, b) && Less(b, a))
  {
    if Less(a, b) && Less(b, a) {
      LessIsTransitive(a, b, a);
      LessIsTotal(a, a);
    }
  }

  lemma ListingTail(a: seq<string>, s: set<string>)
    requires IsListing(a, s) && a != []
    ensures IsListing(a[1..], s - {a[0]})
  {
    forall t ensures t in a[1..] <==> t in s - {a[0]} {
      if t in a[1..] {
        var i :| 0 <= i < |a| - 1 && a[1..][i] == t;
        LessIsTotal(a[0], a[0]);
        assert Less(a[0], a[i + 1]);
        assert t in a;
      }
      if t in s && t != a[0] {
        var i :| 0 <= i < |a| && a[i] == t;
        assert a[1..][i - 1] == t;
      }
    }
  }

  lemma {:induction false} ListingIsUnique(a: seq<string>, b: seq<string>, s: set<string>)
    requires IsListing(a, s) && IsListing(b, s)
    ensures a == b
  {
    if a == [] {
      if b != [] {
        FirstIsListed(b, s);
      }
    } else {
      assert a[0] in s;
      FirstIsLeast(a, s);
      FirstIsLeast(b, s);
      LessIsAsymmetric(a[0], b[0]);
      ListingTail(a, s);
      ListingTail(b, s);
      ListingIsUnique(a[1..], b[1..], s - {a[0]});
      assert a == [a[0]] + a[1..] && b == [b[0]] + b[1..];
    }
  }

  /** Browsing a set, from its least element to its greatest. */
  method ListOf(s: set<string>) returns (list: seq<string>)
    ensures IsListing(list, s)
  {
    list := [];
    var rest := s;
    while rest != {}
      invariant rest <= s && IsListing(list, s - rest)
      invariant forall t, u | t in list && u in rest :: Less(t, u)
      decreases rest
    {
      ghost var m := LeastExists(rest);
      var least :| least in rest && forall t | t in rest :: t == least || Less(least, t);
      list := list + [least];
      rest := rest - {least};
    }
    assert s - rest == s;
  }

  // ---------------------------------------------------------------------
  // The contiguous parts of a phrase

  ghost predicate IsIn(q: string, partition: seq<seq<string>>) {
    exists i, j :: 0 <= i < |partition| && 0 <= j < |partition[i]| && partition[i][j] == q
  }

  /** A contiguous part of the words, as a string. */
  ghost predicate IsSpan(q: string, ws: seq<string>) {
    exists i, j :: 0 <= i < j <= |ws| && q == Join(ws[i..j])
  }

  lemma SpansAreInThePartition(ws: seq<string>, i: nat, j: nat)
    requires i < j <= |ws|
    ensures IsIn(Join(ws[i..j]), RenderAll(Groupings(ws)))
  {
    var g, ps := Joined(ws, i, j), RenderAll(Groupings(ws));
    JoinedIsAGrouping(ws, i, j);
    var k := Position(g, ws);
    assert g[i] == ws[i..j];
    assert ps[k][i] == Join(ws[i..j]);
  }

  /** The strings of all the partitions of a phrase are its contiguous parts. */
  lemma PartitionStringsAreSpans(phrase: string, q: string)
    ensures IsIn(q, Partition(phrase)) <==> IsSpan(q, Tokens(phrase))
  {
    var ws, ps := Tokens(phrase), Partition(phrase);
    if IsIn(q, ps) {
      var k, l :| 0 <= k < |ps| && 0 <= l < |ps[k]| && ps[k][l] == q;
      var g := Groupings(ws)[k];
      GroupingsAreSound(ws, k);
      assert g[l] in g;
      var i := PieceIsAPart(g, l);
      assert q == Join(ws[i..i + |g[l]|]);
    }
    if IsSpan(q, ws) {
      var i, j :| 0 <= i < j <= |ws| && q == Join(ws[i..j]);
      SpansAreInThePartition(ws, i, j);
    }
  }

  method InsertAll(strings: seq<string>, s: set<string>) returns (r: set<string>)
    ensures r == s + (set q | q in strings)
  {
    r := s;
    for i := 0 to |strings|
      invariant r == s + set q | q in strings[..i]
    {
      r := r + {strings[i]};
    }
    assert strings[..|strings|] == strings;
  }

  method CollectStrings(partition: seq<seq<string>>) returns (s: set<string>)
    ensures forall q :: q in s <==> IsIn(q, partition)
  {
    s := {};
    for i := 0 to |partition|
      invariant forall q :: q in s <==> IsIn(q, partition[..i])
    {
      ghost var before := s;
      s := InsertAll(partition[i], s);
      forall q ensures q in s <==> IsIn(q, partition[..i + 1]) {
        if q in partition[i] {
          var j :| 0 <= j < |partition[i]| && partition[i][j] == q;
          assert partition[..i + 1][i][j] == q;
        }
        if q in before {
          var k, j :| 0 <= k < i && 0 <= j < |partition[k]| && partition[..i][k][j] == q;
          assert partition[..i + 1][k][j] == q;
        }
        if IsIn(q, partition[..i + 1]) {
          var k, j :| 0 <= k < i + 1 && 0 <= j < |partition[k]| && partition[..i + 1][k][j] == q;
          assert k < i ==> partition[..i][k][j] == q;
        }
      }
    }
    assert partition[..|partition|] == partition;
  }

  /** The contiguous parts of the phrase of a string partition, each once, in order. */
  method CalculateUniqueCombinations(stringPartition: StringPartition) returns (list: seq<string>)
    requires stringPartition.partition == Partition(stringPartition.initialString)
    ensures exists s :: IsListing(list, s) && forall q :: q in s <==> IsSpan(q, Tokens(stringPartition.initialString))
  {
    var s := CollectStrings(stringPartition.partition);
    forall q ensures q in s <==> IsSpan(q, Tokens(stringPartition.initialString)) {
      PartitionStringsAreSpans(stringPartition.initialString, q);
    }
    list := ListOf(s);
  }

  // ---------------------------------------------------------------------
  // The words, without a group of them in the middle

  /** The string left when n words are removed behind the first i. */
  function Gap(ws: seq<string>, i: nat, n: nat): string
    requires i + n <= |ws|
  {
    Join(ws[..i]) + " " + Join(ws[i + n..])
  }

  /** All the ways to remove n words from the middle. */
  function GapsOf(ws: seq<string>, n: nat): (r: seq<string>)
    requires n < |ws|
    ensures |r| == |ws| - n - 1 && forall k | 0 <= k < |r| :: r[k] == Gap(ws, k + 1, n)
  {
    seq(|ws| - n - 1, k requires 0 <= k < |ws| - n - 1 => Gap(ws, k + 1, n))
  }

  /** All the ways to remove less than n words from the middle. */
  function Gaps(ws: seq<string>, n: nat): seq<string>
    requires n <= |ws|
  {
    if n <= 1 then [] else Gaps(ws, n - 1) + GapsOf(ws, n - 1)
  }

  /** What follows the contiguous parts in the list. */
  function AllGaps(ws: seq<string>): seq<string> {
    if |ws| <= 2 then [] else Gaps(ws, |ws| - 1)
  }

  /** The words around the gap are those of the phrase, without the gap. */
  lemma TokensOfGap(ws: seq<string>, i: nat, n: nat)
    requires AreWords(ws) && 0 < i && i + n < |ws|
    ensures Gap(ws, i, n) == Join(ws[..i] + ws[i + n..])
    ensures Tokens(Gap(ws, i, n)) == ws[..i] + ws[i + n..]
  {
    JoinConcat(ws[..i], ws[i + n..]);
    TokensOfJoin(ws[..i] + ws[i + n..]);
  }

  /** Where the gap of each entry begins and ends. */
  function GapEndsOf(n: nat, m: nat): (r: seq<(nat, nat)>)
    requires m < n
    ensures |r| == n - m - 1 && forall k | 0 <= k < |r| :: r[k] == (k + 1, k + 1 + m)
  {
    seq(n - m - 1, k requires 0 <= k < n - m - 1 => (k + 1, k + 1 + m))
  }

  function GapEnds(n: nat, m: nat): seq<(nat, nat)>
    requires m <= n
  {
    if m <= 1 then [] else GapEnds(n, m - 1) + GapEndsOf(n, m - 1)
  }

  function AllGapEnds(n: nat): seq<(nat, nat)> {
    if n <= 2 then [] else GapEnds(n, n - 1)
  }

  lemma GapEndsStep(n: int, m: int)
    ensures (m - 1) * (2 * n - m - 2) == (m - 2) * (2 * n - m - 1) + 2 * (n - m)
  {
  }

  lemma {:induction false} GapEndsCount(n: nat, m: nat)
    requires 1 <= m < n
    ensures 2 * |GapEnds(n, m)| == (m - 1) * (2 * n - m - 2)
  {
    if m > 1 {
      GapEndsCount(n, m - 1);
      GapEndsStep(n, m);
    }
  }

  lemma {:induction false} GapEndsAre(n: nat, m: nat, p: (nat, nat))
    requires m <= n
    ensures p in GapEnds(n, m) <==> 0 < p.0 < p.1 < n && p.1 - p.0 < m
  {
    if m > 1 {
      GapEndsAre(n, m - 1, p);
      if 0 < p.0 < p.1 < n && p.1 - p.0 == m - 1 {
        assert GapEndsOf(n, m - 1)[p.0 - 1] == p;
      }
    }
  }

  lemma {:induction false} GapEndsAreDistinct(n: nat, m: nat, a: nat, b: nat)
    requires m <= n && a < b < |GapEnds(n, m)|
    ensures GapEnds(n, m)[a] != GapEnds(n, m)[b]
  {
    if m > 1 {
      var before := GapEnds(n, m - 1);
      if b < |before| {
        GapEndsAreDistinct(n, m - 1, a, b);
      } else if a < |before| {
        GapEndsAre(n, m - 1, before[a]);
        assert before[a] in before;
      }
    }
  }

  lemma {:induction false} GapsFollowTheirEnds(ws: seq<string>, m: nat, k: nat)
    requires AreWords(ws) && m < |ws|
    ensures |Gaps(ws, m)| == |GapEnds(|ws|, m)|
    ensures k < |Gaps(ws, m)| ==>
              var p := GapEnds(|ws|, m)[k];
              0 < p.0 < p.1 < |ws| && Gaps(ws, m)[k] == Join(ws[..p.0] + ws[p.1..])
  {
    hide Gap;
    hide Join;
    hide Tokens;
    if m > 1 {
      GapsFollowTheirEnds(ws, m - 1, k);
      var before := |Gaps(ws, m - 1)|;
      if before <= k < |Gaps(ws, m)| {
        TokensOfGap(ws, k - before + 1, m - 1);
      }
    }
  }

  /** (n - 1)(n - 2) / 2 */
  predicate IsNumberOfGaps(k: nat, n: nat) {
    2 * k == if n <= 2 then 0 else (n - 1) * (n - 2)
  }

  lemma AllGapEndsCount(n: nat)
    ensures IsNumberOfGaps(|AllGapEnds(n)|, n)
  {
    if n > 2 {
      GapEndsCount(n, n - 1);
      assert 2 * n - (n - 1) - 2 == n - 1;
    }
  }

  /** Each gap between a proper prefix and a proper suffix, once. */
  lemma AllGapEndsAreThePrefixSuffixPairs(n: nat)
    ensures forall p: (nat, nat) :: p in AllGapEnds(n) <==> 0 < p.0 < p.1 < n
    ensures forall a, b | 0 <= a < b < |AllGapEnds(n)| :: AllGapEnds(n)[a] != AllGapEnds(n)[b]
  {
    if n > 2 {
      forall p: (nat, nat) ensures p in AllGapEnds(n) <==> 0 < p.0 < p.1 < n {
        GapEndsAre(n, n - 1, p);
      }
      forall a, b | 0 <= a < b < |AllGapEnds(n)| ensures AllGapEnds(n)[a] != AllGapEnds(n)[b] {
        GapEndsAreDistinct(n, n - 1, a, b);
      }
    }
  }

  lemma AllGapAt(ws: seq<string>, k: nat)
    requires AreWords(ws) && |AllGaps(ws)| == |AllGapEnds(|ws|)| && k < |AllGaps(ws)|
    ensures var p := AllGapEnds(|ws|)[k];
            p.0 < p.1 <= |ws| && AllGaps(ws)[k] == Join(ws[..p.0] + ws[p.1..])
  {
    hide Gaps;
    hide GapEnds;
    hide Join;
    GapsFollowTheirEnds(ws, |ws| - 1, k);
  }

  lemma AllGapsCount(ws: seq<string>)
    requires AreWords(ws)
    ensures |AllGaps(ws)| == |AllGapEnds(|ws|)|
  {
    if |ws| > 2 {
      GapsFollowTheirEnds(ws, |ws| - 1, 0);
    }
  }

  /** The entries behind the contiguous parts, one by one: what is left of the words
      around each gap. No gap comes twice, and there are (n - 1)(n - 2) / 2 of them. */
  lemma AllGapsAreThePrefixSuffixPairs(phrase: string)
    ensures var ws, ends := Tokens(phrase), AllGapEnds(|Tokens(phrase)|);
            && |AllGaps(ws)| == |ends|
            && IsNumberOfGaps(|ends|, |ws|)
            && (forall p: (nat, nat) :: p in ends <==> 0 < p.0 < p.1 < |ws|)
            && (forall a, b | 0 <= a < b < |ends| :: ends[a] != ends[b])
            && (forall k | 0 <= k < |ends| :: AllGaps(ws)[k] == Join(ws[..ends[k].0] + ws[ends[k].1..]))
  {
    hide IsNumberOfGaps;
    hide AllGaps;
    hide AllGapEnds;
    hide Tokens;
    hide Join;
    var ws := Tokens(phrase);
    TokensAreWords(phrase);
    AllGapsCount(ws);
    AllGapEndsCount(|ws|);
    AllGapEndsAreThePrefixSuffixPairs(|ws|);
    forall k | 0 <= k < |AllGaps(ws)|
      ensures var p := AllGapEnds(|ws|)[k]; AllGaps(ws)[k] == Join(ws[..p.0] + ws[p.1..])
    {
      AllGapAt(ws, k);
    }
  }

  // ---------------------------------------------------------------------
  // The class of the source

  class WordCombinationHolder {
    var list: seq<string>

    /** The contiguous parts of the phrase, in order, and then the gaps. */
    constructor (phrase: string)
      ensures exists spans, s :: list == spans + AllGaps(Tokens(phrase)) && IsListing(spans, s)
                                 && forall q :: q in s <==> IsSpan(q, Tokens(phrase))
    {
      list := [];
      new;
      Init(phrase);
    }

    method PushGapsOf(words: seq<string>, middleLength: nat)
      requires 1 <= middleLength < |words| - 1
      modifies this
      ensures list == old(list) + GapsOf(words, middleLength)
    {
      var idx := 1;
      while idx != |words| - middleLength
        invariant 1 <= idx <= |words| - middleLength
        invariant list == old(list) + GapsOf(words, middleLength)[..idx - 1]
      {
        var left := CreateStringFromWordList(words, idx);
        var right := CreateStringFromWordList(words, idx + middleLength, false);
        list := list + [left + " " + right];
        idx := idx + 1;
      }
    }

    /** The number of words to remove goes up; so does, for each, their place. */
    method PushGaps(words: seq<string>)
      requires |words| > 2
      modifies this
      ensures list == old(list) + AllGaps(words)
    {
      hide Gap;
      hide GapsOf;
      var middleLength := 1;
      assert old(list) + [] == old(list);
      while middleLength != |words| - 1
        invariant 1 <= middleLength <= |words| - 1
        invariant list == old(list) + Gaps(words, middleLength)
      {
        ConcatIsAssociative(old(list), Gaps(words, middleLength), GapsOf(words, middleLength));
        PushGapsOf(words, middleLength);
        middleLength := middleLength + 1;
      }
    }

    method Init(phrase: string)
      requires list == []
      modifies this
      ensures exists spans, s :: list == spans + AllGaps(Tokens(phrase)) && IsListing(spans, s)
                                 && forall q :: q in s <==> IsSpan(q, Tokens(phrase))
    {
      var stringPartition := new StringPartition(phrase);
      list := CalculateUniqueCombinations(stringPartition);
      ghost var spans := list;
      var words := TokeniseStringIntoWordList(phrase);
      if |words| > 2 {
        PushGaps(words);
      }
      assert list == spans + AllGaps(words);
    }
  }
}
