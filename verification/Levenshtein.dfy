/** The edit distance with adjacent transpositions (opentrep/bom/Levenshtein.cpp). */
module Levenshtein {

  function Min(a: nat, b: nat): nat {
    if a <= b then a else b
  }

  function Differ(a: char, b: char): nat {
    if a == b then 0 else 1
  }

  /** The cell reached from above, from the left, along the diagonal, and by a
      transposition. */
  function CellOf(above: nat, left: nat, diag: nat, trans: nat): nat {
    Min(Min(above + 1, Min(left + 1, diag)), trans)
  }

  /** The content of the matrix, a cell at a time: each character of the two that
      a transposition does not put in place costs one more, and no transposition
      may reach the first character of either string. */
  function Cell(s: string, t: string, i: nat, j: nat): nat
    requires i <= |s| && j <= |t|
    decreases i + j
  {
    if i == 0 then j
    else if j == 0 then i
    else
      var above, left, diag := Cell(s, t, i - 1, j), Cell(s, t, i, j - 1), Cell(s, t, i - 1, j - 1);
      CellOf(above, left, diag + Differ(s[i - 1], t[j - 1]),
             if i > 2 && j > 2 then
               Cell(s, t, i - 2, j - 2) + 1 + Differ(s[i - 2], t[j - 1]) + Differ(s[i - 1], t[j - 2])
             else above + 1)
  }

  function Distance(s: string, t: string): nat {
    Cell(s, t, |s|, |t|)
  }

  /** The matrix as a whole. */
  type Matrix = (nat, nat) -> nat

  predicate CellHolds(M: Matrix, s: string, t: string, i: nat, j: nat) {
    i <= |s| && j <= |t| ==>
      M(i, j) ==
      if i == 0 then j
      else if j == 0 then i
      else
        CellOf(M(i - 1, j), M(i, j - 1), M(i - 1, j - 1) + Differ(s[i - 1], t[j - 1]),
               if i > 2 && j > 2 then
                 M(i - 2, j - 2) + 1 + Differ(s[i - 2], t[j - 1]) + Differ(s[i - 1], t[j - 2])
               else M(i - 1, j) + 1)
  }

  ghost predicate Filled(M: Matrix, s: string, t: string) {
    forall i: nat, j: nat :: CellHolds(M, s, t, i, j)
  }

  function MatrixOf(s: string, t: string): Matrix {
    (i: nat, j: nat) => if i <= |s| && j <= |t| then Cell(s, t, i, j) else 0
  }

  lemma MatrixIsFilled(s: string, t: string)
    ensures Filled(MatrixOf(s, t), s, t)
  {
    forall i: nat, j: nat ensures CellHolds(MatrixOf(s, t), s, t, i, j) {
    }
  }

  /** The body of the two loops: the cell (i, j) from the cells around it. */
  method NextCell(matrix: array2<nat>, source: string, target: string, i: nat, j: nat) returns (cell: nat)
    requires matrix.Length0 == |source| + 1 && matrix.Length1 == |target| + 1
    requires 0 < i <= |source| && 0 < j <= |target|
    ensures cell == CellOf(matrix[i - 1, j], matrix[i, j - 1],
                           matrix[i - 1, j - 1] + Differ(source[i - 1], target[j - 1]),
                           if i > 2 && j > 2 then
                             matrix[i - 2, j - 2] + 1
                             + Differ(source[i - 2], target[j - 1]) + Differ(source[i - 1], target[j - 2])
                           else matrix[i - 1, j] + 1)
  {
    var si, tj := source[i - 1], target[j - 1];
    var cost := if si == tj then 0 else 1;
    var above, left, diag := matrix[i - 1, j], matrix[i, j - 1], matrix[i - 1, j - 1];
    cell := Min(above + 1, Min(left + 1, diag + cost));
    if i > 2 && j > 2 {
      var trans := matrix[i - 2, j - 2] + 1;
      if source[i - 2] != tj {
        trans := trans + 1;
      }
      if si != target[j - 2] {
        trans := trans + 1;
      }
      if cell > trans {
        cell := trans;
      }
    }
  }

  method SizeMatrix(n: nat, m: nat) returns (matrix: array2<nat>)
    ensures fresh(matrix) && matrix.Length0 == n + 1 && matrix.Length1 == m + 1
    ensures forall i: nat | i <= n :: matrix[i, 0] == i
    ensures forall j: nat | j <= m :: matrix[0, j] == j
  {
    matrix := new nat[n + 1, m + 1];
    for i := 0 to n + 1
      invariant forall a: nat | a < i :: matrix[a, 0] == a
    {
      matrix[i, 0] := i;
    }
    for j := 0 to m + 1
      invariant forall a: nat | a <= n :: matrix[a, 0] == a
      invariant forall b: nat | b < j :: matrix[0, b] == b
    {
      matrix[0, j] := j;
    }
  }

  lemma EdgesHold(M: Matrix, s: string, t: string)
    requires Filled(M, s, t)
    ensures forall i: nat | i <= |s| :: M(i, 0) == i
    ensures forall j: nat | j <= |t| :: M(0, j) == j
  {
    forall i: nat | i <= |s| ensures M(i, 0) == i {
      assert CellHolds(M, s, t, i, 0);
    }
    forall j: nat | j <= |t| ensures M(0, j) == j {
      assert CellHolds(M, s, t, 0, j);
    }
  }

  method FillMatrix(source: string, target: string, ghost M: Matrix) returns (matrix: array2<nat>)
    requires Filled(M, source, target)
    ensures matrix.Length0 == |source| + 1 && matrix.Length1 == |target| + 1
    ensures forall i: nat, j: nat | i <= |source| && j <= |target| :: matrix[i, j] == M(i, j)
  {
    var n, m := |source|, |target|;
    matrix := SizeMatrix(n, m);
    EdgesHold(M, source, target);
    for i := 1 to n + 1
      invariant forall a: nat | i <= a <= n :: matrix[a, 0] == a
      invariant forall a: nat, b: nat | a < i && b <= m :: matrix[a, b] == M(a, b)
    {
      assert CellHolds(M, source, target, i, 0);
      for j := 1 to m + 1
        invariant forall a: nat | i < a <= n :: matrix[a, 0] == a
        invariant forall a: nat, b: nat | a < i && b <= m :: matrix[a, b] == M(a, b)
        invariant forall b: nat | b < j :: matrix[i, b] == M(i, b)
      {
        var cell := NextCell(matrix, source, target, i, j);
        assert CellHolds(M, source, target, i, j);
        matrix[i, j] := cell;
      }
    }
  }

  method GetDistance(source: string, target: string) returns (d: nat)
    ensures d == Distance(source, target)
  {
    var n, m := |source|, |target|;
    if n == 0 {
      return m;
    }
    if m == 0 {
      return n;
    }
    MatrixIsFilled(source, target);
    var matrix := FillMatrix(source, target, MatrixOf(source, target));
    d := matrix[n, m];
  }

  // ---------------------------------------------------------------------
  // Neighbouring cells

  lemma {:induction false} DownStep(M: Matrix, s: string, t: string, i: nat, j: nat)
    requires Filled(M, s, t) && i < |s| && j <= |t|
    ensures -1 <= M(i + 1, j) - M(i, j) <= 1
    decreases i + j, 0
  {
    assert CellHolds(M, s, t, i, j) && CellHolds(M, s, t, i + 1, j);
    if j > 0 {
      DownStep(M, s, t, i, j - 1);
      assert CellHolds(M, s, t, i, j - 1);
      if i > 1 && j > 2 {
        Steps(M, s, t, i - 1, j - 2);
      }
    }
  }

  lemma {:induction false} RightStep(M: Matrix, s: string, t: string, i: nat, j: nat)
    requires Filled(M, s, t) && i <= |s| && j < |t|
    ensures -1 <= M(i, j + 1) - M(i, j) <= 1
    decreases i + j, 0
  {
    assert CellHolds(M, s, t, i, j) && CellHolds(M, s, t, i, j + 1);
    if i > 0 {
      RightStep(M, s, t, i - 1, j);
      assert CellHolds(M, s, t, i - 1, j);
      if j > 1 && i > 2 {
        Steps(M, s, t, i - 2, j - 1);
      }
    }
  }

  /** Cells one above the other, or side by side, differ by at most 1; along a
      diagonal the matrix stays or goes up by 1. */
  lemma {:induction false} Steps(M: Matrix, s: string, t: string, i: nat, j: nat)
    requires Filled(M, s, t) && i <= |s| && j <= |t|
    ensures i < |s| ==> -1 <= M(i + 1, j) - M(i, j) <= 1
    ensures j < |t| ==> -1 <= M(i, j + 1) - M(i, j) <= 1
    ensures i < |s| && j < |t| ==> 0 <= M(i + 1, j + 1) - M(i, j) <= 1
    decreases i + j, 1
  {
    if i < |s| {
      DownStep(M, s, t, i, j);
    }
    if j < |t| {
      RightStep(M, s, t, i, j);
    }
    if i < |s| && j < |t| {
      assert CellHolds(M, s, t, i + 1, j + 1);
      if i > 1 && j > 1 {
        Steps(M, s, t, i - 1, j - 1);
      }
    }
  }

  predicate SwapsAt(s: string, t: string, i: nat, j: nat) {
    2 < i <= |s| && 2 < j <= |t| && s[i - 2] == t[j - 1] && s[i - 1] == t[j - 2]
  }

  /** Of the transpositions, only the exact ones matter: the cell is the same
      when the others are left out. */
  lemma ExactSwapsSuffice(M: Matrix, s: string, t: string, i: nat, j: nat)
    requires Filled(M, s, t) && 0 < i <= |s| && 0 < j <= |t|
    ensures M(i, j) == CellOf(M(i - 1, j), M(i, j - 1), M(i - 1, j - 1) + Differ(s[i - 1], t[j - 1]),
                              if SwapsAt(s, t, i, j) then M(i - 2, j - 2) + 1 else M(i - 1, j) + 1)
  {
    assert CellHolds(M, s, t, i, j);
    if i > 2 && j > 2 {
      assert CellHolds(M, s, t, i - 1, j - 1);
    }
  }

  // ---------------------------------------------------------------------
  // Edit scripts

  datatype Edit = Keep | Insert(c: char) | Delete | Substitute(c: char) | Swap

  /** The number of source characters consumed, and the string produced, so far. */
  datatype State = State(read: nat, written: string)

  datatype Option<T> = None | Some(value: T)

  /** One edit; two characters may be swapped only behind at least one character
      of each string. */
  function Step(e: Edit, s: string, st: State): Option<State>
    requires st.read <= |s|
  {
    var i := st.read;
    match e
    case Keep => if i < |s| then Some(State(i + 1, st.written + [s[i]])) else None
    case Insert(c) => Some(State(i, st.written + [c]))
    case Delete => if i < |s| then Some(State(i + 1, st.written)) else None
    case Substitute(c) => if i < |s| then Some(State(i + 1, st.written + [c])) else None
    case Swap =>
      if 1 <= i < |s| - 1 && |st.written| >= 1 then Some(State(i + 2, st.written + [s[i + 1], s[i]]))
      else None
  }

  function Exec(es: seq<Edit>, s: string, st: State): (r: Option<State>)
    requires st.read <= |s|
    ensures r.Some? ==> r.value.read <= |s| && st.written <= r.value.written
  {
    if es == [] then Some(st)
    else
      match Step(es[0], s, st)
      case None => None
      case Some(next) => Exec(es[1..], s, next)
  }

  /** The script reads the whole source and writes the target. */
  predicate Transforms(es: seq<Edit>, s: string, t: string) {
    Exec(es, s, State(0, "")) == Some(State(|s|, t))
  }

  function EditCost(e: Edit): nat {
    if e == Keep then 0 else 1
  }

  function Cost(es: seq<Edit>): nat {
    if es == [] then 0 else EditCost(es[0]) + Cost(es[1..])
  }

  /** One edit moves to a cell that is at most its cost higher. */
  lemma CellAfterEdit(M: Matrix, e: Edit, s: string, t: string, st: State, next: State)
    requires Filled(M, s, t)
    requires st.read <= |s| && Step(e, s, st) == Some(next)
    requires st.written <= t && next.written <= t
    ensures M(next.read, |next.written|) <= M(st.read, |st.written|) + EditCost(e)
  {
    var j := |st.written|;
    assert CellHolds(M, s, t, st.read, j) && CellHolds(M, s, t, next.read, |next.written|);
    assert forall k | 0 <= k < |next.written| :: next.written[k] == t[k];
  }

  lemma {:induction false} ScriptsCostAtLeast(M: Matrix, es: seq<Edit>, s: string, t: string, st: State)
    requires Filled(M, s, t)
    requires st.read <= |s| && st.written <= t
    requires Exec(es, s, st) == Some(State(|s|, t))
    ensures M(|s|, |t|) <= M(st.read, |st.written|) + Cost(es)
    decreases |es|
  {
    if es == [] {
    } else {
      var next := Step(es[0], s, st).value;
      CellAfterEdit(M, es[0], s, t, st, next);
      ScriptsCostAtLeast(M, es[1..], s, t, next);
    }
  }

  lemma {:induction false} ExecSnocCost(es: seq<Edit>, e: Edit)
    ensures Cost(es + [e]) == Cost(es) + EditCost(e)
  {
    if es == [] {
      assert [] + [e] == [e];
    } else {
      assert (es + [e])[1..] == es[1..] + [e];
      ExecSnocCost(es[1..], e);
    }
  }

  lemma {:induction false} ExecSnoc(es: seq<Edit>, e: Edit, s: string, st: State)
    requires st.read <= |s|
    ensures var mid := Exec(es, s, st);
            Exec(es + [e], s, st) == if mid.None? then None else Step(e, s, mid.value)
    ensures Cost(es + [e]) == Cost(es) + EditCost(e)
    decreases |es|
  {
    if es == [] {
      assert [] + [e] == [e];
    } else {
      assert (es + [e])[1..] == es[1..] + [e];
      match Step(es[0], s, st)
      case None => ExecSnocCost(es, e);
      case Some(next) => ExecSnoc(es[1..], e, s, next);
    }
  }

  ghost predicate Reaches(es: seq<Edit>, cost: nat, s: string, t: string, i: nat, j: nat)
    requires i <= |s| && j <= |t|
  {
    Exec(es, s, State(0, "")) == Some(State(i, t[..j])) && Cost(es) == cost
  }

  lemma ReachesNext(es: seq<Edit>, e: Edit, cost: nat, s: string, t: string, i: nat, j: nat, i': nat, j': nat)
    requires i <= |s| && j <= |t| && i' <= |s| && j' <= |t|
    requires Reaches(es, cost, s, t, i, j)
    requires Step(e, s, State(i, t[..j])) == Some(State(i', t[..j']))
    ensures Reaches(es + [e], cost + EditCost(e), s, t, i', j')
  {
    ExecSnoc(es, e, s, State(0, ""));
  }

  /** The last edit on a cheapest way to the cell (i, j), and the cell before it. */
  function LastEdit(M: Matrix, s: string, t: string, i: nat, j: nat): (Edit, nat, nat)
    requires i <= |s| && j <= |t| && i + j > 0
  {
    if j > 0 && M(i, j) == M(i, j - 1) + 1 then (Insert(t[j - 1]), i, j - 1)
    else if i > 0 && M(i, j) == M(i - 1, j) + 1 then (Delete, i - 1, j)
    else if i == 0 || j == 0 then (Keep, 0, 0)
    else if s[i - 1] == t[j - 1] then (Keep, i - 1, j - 1)
    else if SwapsAt(s, t, i, j) && M(i, j) == M(i - 2, j - 2) + 1 then (Swap, i - 2, j - 2)
    else (Substitute(t[j - 1]), i - 1, j - 1)
  }

  lemma LastEditIsRight(M: Matrix, s: string, t: string, i: nat, j: nat)
    requires Filled(M, s, t) && i <= |s| && j <= |t| && i + j > 0
    ensures var (e, i', j') := LastEdit(M, s, t, i, j);
            && i' <= i && j' <= j && i' + j' < i + j
            && Step(e, s, State(i', t[..j'])) == Some(State(i, t[..j]))
            && M(i, j) == M(i', j') + EditCost(e)
  {
    EdgesHold(M, s, t);
    if j > 0 {
      assert t[..j] == t[..j - 1] + [t[j - 1]];
    }
    if i > 0 && j > 0 {
      ExactSwapsSuffice(M, s, t, i, j);
      Steps(M, s, t, i - 1, j - 1);
      if SwapsAt(s, t, i, j) {
        assert t[..j] == t[..j - 2] + [t[j - 2], t[j - 1]];
        Steps(M, s, t, i - 2, j - 2);
      }
    }
  }

  /** A script as cheap as the cell says. */
  ghost function Script(M: Matrix, s: string, t: string, i: nat, j: nat): (es: seq<Edit>)
    requires Filled(M, s, t) && i <= |s| && j <= |t|
    ensures Reaches(es, M(i, j), s, t, i, j)
    decreases i + j
  {
    if i + j == 0 then
      EdgesHold(M, s, t);
      []
    else
      LastEditIsRight(M, s, t, i, j);
      var (e, i', j') := LastEdit(M, s, t, i, j);
      var es := Script(M, s, t, i', j');
      ReachesNext(es, e, M(i', j'), s, t, i', j', i, j);
      es + [e]
  }

  /** The distance is the least cost of a script: one attains it, none is cheaper. */
  lemma DistanceIsOptimal(s: string, t: string)
    ensures exists es :: Transforms(es, s, t) && Cost(es) == Distance(s, t)
    ensures forall es | Transforms(es, s, t) :: Distance(s, t) <= Cost(es)
  {
    var M := MatrixOf(s, t);
    MatrixIsFilled(s, t);
    var best := Script(M, s, t, |s|, |t|);
    assert t[..|t|] == t;
    assert Transforms(best, s, t) && Cost(best) == Distance(s, t);
    EdgesHold(M, s, t);
    forall es | Transforms(es, s, t) ensures Distance(s, t) <= Cost(es) {
      ScriptsCostAtLeast(M, es, s, t, State(0, ""));
    }
  }

  // ---------------------------------------------------------------------
  // A distance, but not a metric

  lemma {:induction false} CellIsSymmetric(M: Matrix, W: Matrix, s: string, t: string, i: nat, j: nat)
    requires Filled(M, s, t) && Filled(W, t, s) && i <= |s| && j <= |t|
    ensures M(i, j) == W(j, i)
    decreases i + j
  {
    assert CellHolds(M, s, t, i, j) && CellHolds(W, t, s, j, i);
    if i > 0 && j > 0 {
      CellIsSymmetric(M, W, s, t, i - 1, j);
      CellIsSymmetric(M, W, s, t, i, j - 1);
      CellIsSymmetric(M, W, s, t, i - 1, j - 1);
      if i > 2 && j > 2 {
        CellIsSymmetric(M, W, s, t, i - 2, j - 2);
      }
    }
  }

  lemma {:induction false} CellBounds(M: Matrix, s: string, t: string, i: nat, j: nat)
    requires Filled(M, s, t) && i <= |s| && j <= |t|
    ensures i - j <= M(i, j) && j - i <= M(i, j)
    ensures M(i, j) <= i || M(i, j) <= j
    decreases i + j
  {
    assert CellHolds(M, s, t, i, j);
    if i > 0 && j > 0 {
      CellBounds(M, s, t, i - 1, j);
      CellBounds(M, s, t, i, j - 1);
      CellBounds(M, s, t, i - 1, j - 1);
      if i > 2 && j > 2 {
        CellBounds(M, s, t, i - 2, j - 2);
      }
    }
  }

  lemma {:induction false} CellIsZero(M: Matrix, s: string, t: string, i: nat, j: nat)
    requires Filled(M, s, t) && i <= |s| && j <= |t|
    ensures M(i, j) == 0 <==> s[..i] == t[..j]
    decreases i + j
  {
    CellBounds(M, s, t, i, j);
    if i == j && i > 0 {
      assert CellHolds(M, s, t, i, j);
      CellIsZero(M, s, t, i - 1, j - 1);
      assert s[..i] == s[..i - 1] + [s[i - 1]] && t[..j] == t[..j - 1] + [t[j - 1]];
    } else if i != j {
      assert |s[..i]| != |t[..j]|;
    }
  }

  /** Symmetric, zero exactly on equal strings, and between the length
      difference and the larger length. */
  lemma DistanceLaws(s: string, t: string)
    ensures Distance(s, t) == Distance(t, s)
    ensures Distance(s, t) == 0 <==> s == t
    ensures |s| - |t| <= Distance(s, t) && |t| - |s| <= Distance(s, t)
    ensures Distance(s, t) <= if |s| >= |t| then |s| else |t|
  {
    var M, W := MatrixOf(s, t), MatrixOf(t, s);
    MatrixIsFilled(s, t);
    MatrixIsFilled(t, s);
    CellIsSymmetric(M, W, s, t, |s|, |t|);
    CellIsZero(M, s, t, |s|, |t|);
    assert s[..|s|] == s && t[..|t|] == t;
    CellBounds(M, s, t, |s|, |t|);
  }

  predicate PlainCellHolds(L: Matrix, s: string, t: string, i: nat, j: nat) {
    i <= |s| && j <= |t| ==>
      L(i, j) ==
      if i == 0 then j
      else if j == 0 then i
      else Min(L(i - 1, j) + 1, Min(L(i, j - 1) + 1, L(i - 1, j - 1) + Differ(s[i - 1], t[j - 1])))
  }

  /** The matrix without any transposition. */
  ghost predicate FilledPlainly(L: Matrix, s: string, t: string) {
    forall i: nat, j: nat :: PlainCellHolds(L, s, t, i, j)
  }

  /** Transpositions save at most half of the plain edit distance, in every cell. */
  lemma {:induction false} PlainBounds(M: Matrix, L: Matrix, s: string, t: string, i: nat, j: nat)
    requires Filled(M, s, t) && FilledPlainly(L, s, t) && i <= |s| && j <= |t|
    ensures M(i, j) <= L(i, j) <= 2 * M(i, j)
    decreases i + j
  {
    assert CellHolds(M, s, t, i, j) && PlainCellHolds(L, s, t, i, j);
    if i > 0 && j > 0 {
      PlainBounds(M, L, s, t, i - 1, j);
      PlainBounds(M, L, s, t, i, j - 1);
      PlainBounds(M, L, s, t, i - 1, j - 1);
      if i > 2 && j > 2 {
        PlainBounds(M, L, s, t, i - 2, j - 2);
        assert PlainCellHolds(L, s, t, i - 1, j - 1);
      }
    }
  }

  lemma {:induction false} PlainCellBounds(L: Matrix, s: string, t: string, i: nat, j: nat)
    requires FilledPlainly(L, s, t) && i <= |s| && j <= |t|
    ensures i - j <= L(i, j) && j - i <= L(i, j) && L(i, j) <= i + j
    decreases i + j
  {
    assert PlainCellHolds(L, s, t, i, j);
    if i > 0 && j > 0 {
      PlainCellBounds(L, s, t, i - 1, j);
      PlainCellBounds(L, s, t, i, j - 1);
      PlainCellBounds(L, s, t, i - 1, j - 1);
    }
  }

  /** Without transpositions the triangle inequality holds, cell by cell. */
  lemma {:induction false} PlainTriangle(K: Matrix, L: Matrix, N: Matrix, a: string, b: string, c: string,
                                         i: nat, j: nat, k: nat)
    requires FilledPlainly(K, a, b) && FilledPlainly(L, b, c) && FilledPlainly(N, a, c)
    requires i <= |a| && j <= |b| && k <= |c|
    ensures N(i, k) <= K(i, j) + L(j, k)
    decreases i + j + k
  {
    PlainCellBounds(K, a, b, i, j);
    PlainCellBounds(L, b, c, j, k);
    PlainCellBounds(N, a, c, i, k);
    assert PlainCellHolds(K, a, b, i, j) && PlainCellHolds(L, b, c, j, k) && PlainCellHolds(N, a, c, i, k);
    if i > 0 && j > 0 && k > 0 {
      if K(i, j) == K(i - 1, j) + 1 {
        PlainTriangle(K, L, N, a, b, c, i - 1, j, k);
      } else if L(j, k) == L(j, k - 1) + 1 {
        PlainTriangle(K, L, N, a, b, c, i, j, k - 1);
      } else if K(i, j) == K(i, j - 1) + 1 {
        PlainTriangle(K, L, N, a, b, c, i, j - 1, k);
        PlainTriangle(K, L, N, a, b, c, i, j - 1, k - 1);
      } else {
        PlainTriangle(K, L, N, a, b, c, i - 1, j - 1, k);
        PlainTriangle(K, L, N, a, b, c, i - 1, j - 1, k - 1);
      }
    }
  }

  function PlainCell(s: string, t: string, i: nat, j: nat): nat
    requires i <= |s| && j <= |t|
    decreases i + j
  {
    if i == 0 then j
    else if j == 0 then i
    else Min(PlainCell(s, t, i - 1, j) + 1,
             Min(PlainCell(s, t, i, j - 1) + 1, PlainCell(s, t, i - 1, j - 1) + Differ(s[i - 1], t[j - 1])))
  }

  lemma PlainMatrix(s: string, t: string) returns (L: Matrix)
    ensures FilledPlainly(L, s, t)
  {
    L := (i: nat, j: nat) => if i <= |s| && j <= |t| then PlainCell(s, t, i, j) else 0;
    forall i: nat, j: nat ensures PlainCellHolds(L, s, t, i, j) {
    }
  }

  lemma PlainWithinTwice(s: string, t: string, L: Matrix)
    requires FilledPlainly(L, s, t)
    ensures Distance(s, t) <= L(|s|, |t|) <= 2 * Distance(s, t)
  {
    MatrixIsFilled(s, t);
    PlainBounds(MatrixOf(s, t), L, s, t, |s|, |t|);
  }

  /** A detour is never cheaper than half of the direct way. */
  lemma RelaxedTriangleInequality(a: string, b: string, c: string)
    ensures Distance(a, c) <= 2 * (Distance(a, b) + Distance(b, c))
  {
    var K := PlainMatrix(a, b);
    var L := PlainMatrix(b, c);
    var N := PlainMatrix(a, c);
    PlainWithinTwice(a, b, K);
    PlainWithinTwice(b, c, L);
    PlainWithinTwice(a, c, N);
    PlainTriangle(K, L, N, a, b, c, |a|, |b|, |c|);
  }
}
