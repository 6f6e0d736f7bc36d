/** What a transposition costs, and when a detour can be cheaper than the direct
    way (opentrep/bom/Levenshtein.cpp). */
module TriangleInequality {
  import opened Levenshtein

  /** Equal characters carry a cell down its diagonal unchanged. */
  lemma {:induction false} AlongTheDiagonal(M: Matrix, s: string, t: string, i: nat, j: nat, k: nat)
    requires Filled(M, s, t) && i + k <= |s| && j + k <= |t|
    requires forall q | i <= q < i + k :: s[q] == t[q - i + j]
    ensures M(i + k, j + k) == M(i, j)
    decreases k
  {
    if k > 0 {
      AlongTheDiagonal(M, s, t, i, j, k - 1);
      assert CellHolds(M, s, t, i + k, j + k);
      Steps(M, s, t, i + k - 1, j + k - 1);
    }
  }

  // ---------------------------------------------------------------------
  // What a transposition and an insertion cost

  function Swapped(s: string, p: nat): string
    requires p + 1 < |s|
  {
    s[p := s[p + 1]][p + 1 := s[p]]
  }

  function Inserted(s: string, k: nat, z: char): string
    requires k <= |s|
  {
    s[..k] + [z] + s[k..]
  }

  lemma LeadingSwap(M: Matrix, s: string, t: string)
    requires Filled(M, s, t) && |s| >= 2 && |t| >= 2
    requires s[0] == t[1] && s[1] == t[0] && s[0] != s[1]
    ensures M(2, 2) == 2
  {
    EdgesHold(M, s, t);
    assert CellHolds(M, s, t, 1, 1) && CellHolds(M, s, t, 1, 2) && CellHolds(M, s, t, 2, 1);
    assert CellHolds(M, s, t, 2, 2);
  }

  lemma SwapCells(M: Matrix, s: string, t: string, p: nat)
    requires p + 1 < |s| && s[p] != s[p + 1] && t == Swapped(s, p) && Filled(M, s, t)
    ensures if p >= 1 then M(|s|, |s|) <= 1 else M(|s|, |s|) == 2
  {
    EdgesHold(M, s, t);
    AlongTheDiagonal(M, s, t, 0, 0, p);
    AlongTheDiagonal(M, s, t, p + 2, p + 2, |s| - (p + 2));
    if p >= 1 {
      ExactSwapsSuffice(M, s, t, p + 2, p + 2);
    } else {
      LeadingSwap(M, s, t);
    }
  }

  /** Swapping two different neighbours costs 1, but 2 at the front of the string. */
  lemma AdjacentSwapCosts(s: string, p: nat)
    requires p + 1 < |s| && s[p] != s[p + 1]
    ensures Distance(s, Swapped(s, p)) == if p >= 1 then 1 else 2
  {
    var t := Swapped(s, p);
    MatrixIsFilled(s, t);
    assert s[p] != t[p];
    DistanceLaws(s, t);
    hide Cell;
    hide Swapped;
    SwapCells(MatrixOf(s, t), s, t, p);
  }

  lemma InsertionCosts(s: string, k: nat, z: char)
    requires k <= |s|
    ensures Distance(s, Inserted(s, k, z)) == 1
  {
    var t, n := Inserted(s, k, z), |s|;
    var M := MatrixOf(s, t);
    MatrixIsFilled(s, t);
    EdgesHold(M, s, t);
    AlongTheDiagonal(M, s, t, 0, 0, k);
    Steps(M, s, t, k, k);
    AlongTheDiagonal(M, s, t, k, k + 1, n - k);
    DistanceLaws(s, t);
  }

  // ---------------------------------------------------------------------
  // When the triangle inequality holds

  /** Whatever could be swapped on the way from s to t is a pair of equal characters. */
  ghost predicate NoInnerSwap(s: string, t: string) {
    forall i: nat, j: nat | SwapsAt(s, t, i, j) :: s[i - 1] == s[i - 2]
  }

  lemma {:induction false} PlainWithoutSwaps(M: Matrix, L: Matrix, s: string, t: string, i: nat, j: nat)
    requires Filled(M, s, t) && FilledPlainly(L, s, t) && NoInnerSwap(s, t) && i <= |s| && j <= |t|
    ensures M(i, j) == L(i, j)
    decreases i + j
  {
    assert CellHolds(M, s, t, i, j) && PlainCellHolds(L, s, t, i, j);
    if i > 0 && j > 0 {
      PlainWithoutSwaps(M, L, s, t, i - 1, j);
      PlainWithoutSwaps(M, L, s, t, i, j - 1);
      PlainWithoutSwaps(M, L, s, t, i - 1, j - 1);
      ExactSwapsSuffice(M, s, t, i, j);
      if SwapsAt(s, t, i, j) {
        Steps(M, s, t, i - 2, j - 2);
      }
    }
  }

  /** Without a swap on either leg, a detour is never cheaper than the direct way. */
  lemma TriangleWithoutSwaps(a: string, b: string, c: string)
    requires NoInnerSwap(a, b) && NoInnerSwap(b, c)
    ensures Distance(a, c) <= Distance(a, b) + Distance(b, c)
  {
    var K := PlainMatrix(a, b);
    var L := PlainMatrix(b, c);
    var N := PlainMatrix(a, c);
    MatrixIsFilled(a, b);
    MatrixIsFilled(b, c);
    PlainWithoutSwaps(MatrixOf(a, b), K, a, b, |a|, |b|);
    PlainWithoutSwaps(MatrixOf(b, c), L, b, c, |b|, |c|);
    PlainWithinTwice(a, c, N);
    PlainTriangle(K, L, N, a, b, c, |a|, |b|, |c|);
  }

  // ---------------------------------------------------------------------
  // When it does not

  /** What a cell at least holds, from a string with a swap at p to one that keeps
      a third character between the two. */
  function Floor(i: nat, j: nat, p: nat): nat {
    if i == j then (if i <= p then 0 else if i == p + 1 then 1 else 2)
    else if j == i + 1 then (if i <= p then 1 else if i == p + 1 then 2 else 3)
    else if i > j then i - j else j - i
  }

  lemma {:induction false} AtLeastFloor(M: Matrix, a: string, c: string, p: nat, i: nat, j: nat)
    requires Filled(M, a, c) && i <= |a| && j <= |c| && p + 1 < |a| && p + 2 < |c|
    requires a[p] == c[p + 2] && a[p + 1] == c[p] && a[p] != a[p + 1]
    requires c[p + 1] != a[p] && c[p + 1] != a[p + 1]
    ensures M(i, j) >= Floor(i, j, p)
    decreases i + j
  {
    EdgesHold(M, a, c);
    if i > 0 && j > 0 {
      AtLeastFloor(M, a, c, p, i - 1, j);
      AtLeastFloor(M, a, c, p, i, j - 1);
      AtLeastFloor(M, a, c, p, i - 1, j - 1);
      ExactSwapsSuffice(M, a, c, i, j);
      if SwapsAt(a, c, i, j) {
        AtLeastFloor(M, a, c, p, i - 2, j - 2);
      }
    }
  }

  /** Behind the first character, two different neighbours of b open a cheap detour
      through b: a swap to reach it, an insertion to leave it. */
  lemma DetourThrough(b: string, p: nat, z: char)
    requires 1 <= p && p + 1 < |b| && b[p] != b[p + 1] && z != b[p] && z != b[p + 1]
    ensures var a, c := Swapped(b, p), Inserted(b, p + 1, z);
            Distance(a, b) == 1 && Distance(b, c) == 1 && Distance(a, c) >= 3
  {
    var a, c := Swapped(b, p), Inserted(b, p + 1, z);
    AdjacentSwapCosts(b, p);
    DistanceLaws(a, b);
    InsertionCosts(b, p + 1, z);
    MatrixIsFilled(a, c);
    assert c[p] == b[p] && c[p + 1] == z && c[p + 2] == b[p + 1];
    AtLeastFloor(MatrixOf(a, c), a, c, p, |a|, |c|);
  }

  /** No detour through b is cheaper than the direct way. */
  ghost predicate NoDetourThrough(b: string) {
    forall a, c :: Distance(a, c) <= Distance(a, b) + Distance(b, c)
  }

  /** Behind its first character, the string repeats one character only. */
  predicate IsLevel(b: string) {
    forall p | 1 <= p < |b| - 1 :: b[p] == b[p + 1]
  }

  function Third(x: char, y: char): (z: char)
    ensures z != x && z != y
  {
    if x != 'a' && y != 'a' then 'a' else if x != 'b' && y != 'b' then 'b' else 'c'
  }

  lemma LevelStringsHaveNoSwap(a: string, b: string)
    requires IsLevel(b)
    ensures NoInnerSwap(a, b) && NoInnerSwap(b, a)
  {
    forall i: nat, j: nat | SwapsAt(a, b, i, j) ensures a[i - 1] == a[i - 2] {
      assert b[j - 2] == b[j - 2 + 1];
    }
    forall i: nat, j: nat | SwapsAt(b, a, i, j) ensures b[i - 1] == b[i - 2] {
      assert b[i - 2] == b[i - 2 + 1];
    }
  }

  /** The triangle inequality holds through b exactly when b has no two different
      neighbours behind its first character. */
  lemma NoDetourIff(b: string)
    ensures NoDetourThrough(b) <==> IsLevel(b)
  {
    if IsLevel(b) {
      forall a, c ensures Distance(a, c) <= Distance(a, b) + Distance(b, c) {
        LevelStringsHaveNoSwap(a, b);
        LevelStringsHaveNoSwap(c, b);
        TriangleWithoutSwaps(a, b, c);
      }
    }
    if !IsLevel(b) {
      var p :| 1 <= p < |b| - 1 && b[p] != b[p + 1];
      var z := Third(b[p], b[p + 1]);
      DetourThrough(b, p, z);
      var a, c := Swapped(b, p), Inserted(b, p + 1, z);
      assert !(Distance(a, c) <= Distance(a, b) + Distance(b, c));
    }
  }

  /** Three strings: "xca", "xac" and "xabc". */
  lemma TriangleInequalityFails()
    ensures Distance("xca", "xac") + Distance("xac", "xabc") < Distance("xca", "xabc")
  {
    hide Distance;
    DetourThrough("xac", 1, 'b');
    assert Swapped("xac", 1) == "xca" && Inserted("xac", 2, 'b') == "xabc";
  }
}
