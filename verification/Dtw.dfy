/**
 Dynamic time warping, as CTranslate2 and whisper.cpp each implement it: a cost table, a trace table, and a
 walk back through the trace. Costs are exact; whisper.cpp receives the negated matrix.
 */
module Dtw {
  import Sequences

  datatype Cost = Finite(v: real) | Infinite

  predicate Less(a: Cost, b: Cost) {
    a.Finite? && (b.Infinite? || a.v < b.v)
  }

  predicate AtMost(a: Cost, b: Cost) {
    b.Infinite? || (a.Finite? && a.v <= b.v)
  }

  function Plus(v: real, c: Cost): Cost {
    if c.Finite? then Finite(v + c.v) else Infinite
  }

  /** A matrix of n rows and m columns. */
  type Matrix = seq<seq<real>>

  predicate Rectangular(w: Matrix, n: nat, m: nat) {
    |w| == n && forall i :: 0 <= i < n ==> |w[i]| == m
  }

  // ---------------------------------------------------------------------------------------------
  // The cost table
  // ---------------------------------------------------------------------------------------------

  /** The direction the code takes: 0 diagonal, 1 down, 2 right; the tie c0 = c1 < c2 goes right. */
  function Direction(c0: Cost, c1: Cost, c2: Cost): int {
    if Less(c0, c1) && Less(c0, c2) then 0 else if Less(c1, c0) && Less(c1, c2) then 1 else 2
  }

  function Pick(t: int, c0: Cost, c1: Cost, c2: Cost): Cost {
    if t == 0 then c0 else if t == 1 then c1 else c2
  }

  /** Entry (i, j) of the cost table. */
  ghost function CostAt(w: Matrix, n: nat, m: nat, i: nat, j: nat): Cost
    requires Rectangular(w, n, m) && i <= n && j <= m
    decreases i + j
  {
    if i == 0 && j == 0 then Finite(0.0)
    else if i == 0 || j == 0 then Infinite
    else
      var c0, c1, c2 := CostAt(w, n, m, i - 1, j - 1), CostAt(w, n, m, i - 1, j), CostAt(w, n, m, i, j - 1);
      Plus(w[i - 1][j - 1], Pick(Direction(c0, c1, c2), c0, c1, c2))
  }

  ghost function TraceAt(w: Matrix, n: nat, m: nat, i: nat, j: nat): int
    requires Rectangular(w, n, m) && 0 < i <= n && 0 < j <= m
  {
    Direction(CostAt(w, n, m, i - 1, j - 1), CostAt(w, n, m, i - 1, j), CostAt(w, n, m, i, j - 1))
  }

  lemma {:induction false} FiniteInside(w: Matrix, n: nat, m: nat, i: nat, j: nat)
    requires Rectangular(w, n, m) && 0 < i <= n && 0 < j <= m
    ensures CostAt(w, n, m, i, j).Finite?
    decreases i + j
  {
    if i > 1 {
      FiniteInside(w, n, m, i - 1, j);
    }
    if j > 1 {
      FiniteInside(w, n, m, i, j - 1);
    }
    if i > 1 && j > 1 {
      FiniteInside(w, n, m, i - 1, j - 1);
    }
  }

  /** The walk back cannot leave the matrix before (1, 1), and leaves it there. */
  lemma {:induction false} TraceStaysInside(w: Matrix, n: nat, m: nat, i: nat, j: nat)
    requires Rectangular(w, n, m) && 0 < i <= n && 0 < j <= m
    ensures i == 1 && j == 1 ==> TraceAt(w, n, m, i, j) == 0
    ensures i == 1 && j > 1 ==> TraceAt(w, n, m, i, j) == 2
    ensures i > 1 && j == 1 ==> TraceAt(w, n, m, i, j) == 1
  {
    if i > 1 {
      FiniteInside(w, n, m, i - 1, j);
    }
    if j > 1 {
      FiniteInside(w, n, m, i, j - 1);
    }
  }

  // ---------------------------------------------------------------------------------------------
  // The path
  // ---------------------------------------------------------------------------------------------

  datatype Cell = Cell(i: int, j: int)

  /** The cells of the walk back from (i, j), in forward order. */
  ghost function PathTo(w: Matrix, n: nat, m: nat, i: nat, j: nat): (path: seq<Cell>)
    requires Rectangular(w, n, m) && 0 < i <= n && 0 < j <= m
    decreases i + j
  {
    TraceStaysInside(w, n, m, i, j);
    var t := TraceAt(w, n, m, i, j);
    (if i == 1 && j == 1 then []
     else if t == 0 then PathTo(w, n, m, i - 1, j - 1)
     else if t == 1 then PathTo(w, n, m, i - 1, j)
     else PathTo(w, n, m, i, j - 1)) + [Cell(i - 1, j - 1)]
  }

  predicate IsStep(a: Cell, b: Cell) {
    || (b.i == a.i + 1 && b.j == a.j + 1)
    || (b.i == a.i + 1 && b.j == a.j)
    || (b.i == a.i && b.j == a.j + 1)
  }

  /** A monotone staircase from (0, 0) to (i, j). */
  ghost predicate Staircase(path: seq<Cell>, i: int, j: int) {
    && |path| > 0 && path[0] == Cell(0, 0) && path[|path| - 1] == Cell(i, j)
    && forall k :: 0 < k < |path| ==> IsStep(path[k - 1], path[k])
  }

  predicate InMatrix(n: nat, m: nat, c: Cell) {
    0 <= c.i < n && 0 <= c.j < m
  }

  ghost predicate AllIn(n: nat, m: nat, path: seq<Cell>) {
    forall k {:trigger path[k]} :: 0 <= k < |path| ==> InMatrix(n, m, path[k])
  }

  ghost function Total(w: Matrix, n: nat, m: nat, path: seq<Cell>): real
    requires Rectangular(w, n, m) && AllIn(n, m, path)
  {
    if path == [] then 0.0
    else
      var last := path[|path| - 1];
      w[last.i][last.j] + Total(w, n, m, path[..|path| - 1])
  }

  lemma {:induction false} StaircaseFront(path: seq<Cell>, i: int, j: int)
    requires Staircase(path, i, j) && |path| > 1
    ensures var last := path[|path| - 2]; Staircase(path[..|path| - 1], last.i, last.j) && IsStep(last, Cell(i, j))
  {
  }

  /** A staircase stays between its ends, and each step adds at least one to i + j. */
  lemma {:induction false} StaircaseInside(path: seq<Cell>, i: int, j: int, n: nat, m: nat)
    requires Staircase(path, i, j) && i < n && j < m
    ensures i >= 0 && j >= 0 && |path| <= i + j + 1
    ensures AllIn(n, m, path)
  {
    if |path| > 1 {
      var front, last := path[..|path| - 1], path[|path| - 2];
      StaircaseFront(path, i, j);
      StaircaseInside(front, last.i, last.j, n, m);
      assert path == front + [Cell(i, j)];
    }
  }

  /** A staircase to (i - 1, j - 1) inside the matrix, of bounded length and with total weight `c`. */
  ghost predicate IsRoute(w: Matrix, n: nat, m: nat, path: seq<Cell>, i: int, j: int, c: Cost)
    requires Rectangular(w, n, m)
  {
    Staircase(path, i - 1, j - 1) && |path| <= i + j - 1 && AllIn(n, m, path) && c == Finite(Total(w, n, m, path))
  }

  lemma {:induction false} RouteAppend(w: Matrix, n: nat, m: nat, front: seq<Cell>, path: seq<Cell>, i: int, j: int,
                                       next: Cell, c: Cost)
    requires Rectangular(w, n, m) && IsRoute(w, n, m, front, i, j, c) && InMatrix(n, m, next)
    requires IsStep(Cell(i - 1, j - 1), next) && path == front + [next]
    ensures IsRoute(w, n, m, path, next.i + 1, next.j + 1, Plus(w[next.i][next.j], c))
  {
  }

  /** The path is a staircase, and its cells' weights add up to the table's entry. */
  lemma {:induction false} PathIsRoute(w: Matrix, n: nat, m: nat, i: nat, j: nat)
    requires Rectangular(w, n, m) && 0 < i <= n && 0 < j <= m
    ensures IsRoute(w, n, m, PathTo(w, n, m, i, j), i, j, CostAt(w, n, m, i, j))
    decreases i + j
  {
    if i == 1 && j == 1 {
      FirstCell(w, n, m);
    } else {
      var pi, pj := StepBack(w, n, m, i, j);
      PathIsRoute(w, n, m, pi, pj);
      RouteAppend(w, n, m, PathTo(w, n, m, pi, pj), PathTo(w, n, m, i, j), pi, pj, Cell(i - 1, j - 1),
                  CostAt(w, n, m, pi, pj));
    }
  }

  lemma {:induction false} FirstCell(w: Matrix, n: nat, m: nat)
    requires Rectangular(w, n, m) && 0 < n && 0 < m
    ensures PathTo(w, n, m, 1, 1) == [Cell(0, 0)] && Staircase([Cell(0, 0)], 0, 0)
    ensures CostAt(w, n, m, 1, 1) == Finite(Total(w, n, m, [Cell(0, 0)]))
  {
  }

  /** The cell before (i, j) on the path. */
  lemma {:induction false} StepBack(w: Matrix, n: nat, m: nat, i: nat, j: nat) returns (pi: nat, pj: nat)
    requires Rectangular(w, n, m) && 0 < i <= n && 0 < j <= m && (i > 1 || j > 1)
    ensures 0 < pi <= i && 0 < pj <= j && IsStep(Cell(pi - 1, pj - 1), Cell(i - 1, j - 1))
    ensures PathTo(w, n, m, i, j) == PathTo(w, n, m, pi, pj) + [Cell(i - 1, j - 1)]
    ensures CostAt(w, n, m, i, j) == Plus(w[i - 1][j - 1], CostAt(w, n, m, pi, pj))
  {
    TraceStaysInside(w, n, m, i, j);
    var t := TraceAt(w, n, m, i, j);
    pi, pj := if t == 2 then i else i - 1, if t == 1 then j else j - 1;
  }

  // ---------------------------------------------------------------------------------------------
  // Optimality
  // ---------------------------------------------------------------------------------------------

  function Least(c0: Cost, c1: Cost, c2: Cost): Cost {
    if AtMost(c0, c1) && AtMost(c0, c2) then c0 else if AtMost(c1, c2) then c1 else c2
  }

  /** The least weight of a staircase to (i - 1, j - 1), by the same recurrence with a true minimum. */
  ghost function OptimumAt(w: Matrix, n: nat, m: nat, i: nat, j: nat): Cost
    requires Rectangular(w, n, m) && i <= n && j <= m
    decreases i + j
  {
    if i == 0 && j == 0 then Finite(0.0)
    else if i == 0 || j == 0 then Infinite
    else
      Plus(w[i - 1][j - 1], Least(OptimumAt(w, n, m, i - 1, j - 1), OptimumAt(w, n, m, i - 1, j),
                                  OptimumAt(w, n, m, i, j - 1)))
  }

  /** No staircase is cheaper than the optimum. */
  lemma {:induction false} OptimumIsLeast(w: Matrix, n: nat, m: nat, path: seq<Cell>, i: nat, j: nat)
    requires Rectangular(w, n, m) && 0 < i <= n && 0 < j <= m && Staircase(path, i - 1, j - 1)
    requires AllIn(n, m, path)
    ensures AtMost(OptimumAt(w, n, m, i, j), Finite(Total(w, n, m, path)))
    decreases |path|
  {
    if |path| == 1 {
      assert i == 1 && j == 1 && path[..0] == [];
      assert OptimumAt(w, n, m, 0, 0) == Finite(0.0);
    } else {
      StaircaseFront(path, i - 1, j - 1);
      var last := path[|path| - 2];
      StaircaseInside(path[..|path| - 1], last.i, last.j, n, m);
      OptimumIsLeast(w, n, m, path[..|path| - 1], last.i + 1, last.j + 1);
    }
  }

  /** The optimum is reached by a staircase. */
  lemma {:induction false} OptimumIsReached(w: Matrix, n: nat, m: nat, i: nat, j: nat) returns (path: seq<Cell>)
    requires Rectangular(w, n, m) && 0 < i <= n && 0 < j <= m
    ensures IsRoute(w, n, m, path, i, j, OptimumAt(w, n, m, i, j))
    decreases i + j
  {
    var c0, c1, c2 := OptimumAt(w, n, m, i - 1, j - 1), OptimumAt(w, n, m, i - 1, j), OptimumAt(w, n, m, i, j - 1);
    if i == 1 && j == 1 {
      FirstCell(w, n, m);
      path := [Cell(0, 0)];
      assert c0 == CostAt(w, n, m, 0, 0) && c1 == c2 == Infinite;
      assert CostAt(w, n, m, 0, 1) == CostAt(w, n, m, 1, 0) == Infinite;
    } else {
      var pi: nat, pj: nat := i - 1, j - 1;
      if i == 1 || (j > 1 && Least(c0, c1, c2) == c2) {
        pi := i;
      } else if j == 1 || Least(c0, c1, c2) == c1 {
        pj := j;
      }
      var front := OptimumIsReached(w, n, m, pi, pj);
      path := front + [Cell(i - 1, j - 1)];
      RouteAppend(w, n, m, front, path, pi, pj, Cell(i - 1, j - 1), OptimumAt(w, n, m, pi, pj));
      assert i == 1 ==> c0 == c1 == Infinite;
      assert j == 1 ==> c0 == c2 == Infinite;
    }
  }

  /** The table never undercuts the optimum. */
  lemma {:induction false} NeverBelowOptimum(w: Matrix, n: nat, m: nat, i: nat, j: nat)
    requires Rectangular(w, n, m) && i <= n && j <= m
    ensures AtMost(OptimumAt(w, n, m, i, j), CostAt(w, n, m, i, j))
    decreases i + j
  {
    if i > 0 && j > 0 {
      NeverBelowOptimum(w, n, m, i - 1, j - 1);
      NeverBelowOptimum(w, n, m, i - 1, j);
      NeverBelowOptimum(w, n, m, i, j - 1);
    }
  }

  /** The tie that the code resolves the wrong way. */
  ghost predicate LosingTie(w: Matrix, n: nat, m: nat, i: nat, j: nat)
    requires Rectangular(w, n, m) && 0 < i <= n && 0 < j <= m
  {
    var c0, c1, c2 := CostAt(w, n, m, i - 1, j - 1), CostAt(w, n, m, i - 1, j), CostAt(w, n, m, i, j - 1);
    c0 == c1 && Less(c0, c2)
  }

  ghost predicate NoLosingTie(w: Matrix, n: nat, m: nat, upToI: nat, upToJ: nat)
    requires Rectangular(w, n, m) && upToI <= n && upToJ <= m
  {
    forall i: nat, j: nat {:trigger LosingTie(w, n, m, i, j)} :: 0 < i <= upToI && 0 < j <= upToJ ==>
           !LosingTie(w, n, m, i, j)
  }

  ghost predicate Optimal(w: Matrix, n: nat, m: nat, i: nat, j: nat)
    requires Rectangular(w, n, m) && i <= n && j <= m
  {
    CostAt(w, n, m, i, j) == OptimumAt(w, n, m, i, j)
  }

  ghost predicate AllOptimal(w: Matrix, n: nat, m: nat)
    requires Rectangular(w, n, m)
  {
    forall i: nat, j: nat {:trigger Optimal(w, n, m, i, j)} :: i <= n && j <= m ==> Optimal(w, n, m, i, j)
  }

  /** Without a losing tie at or before a cell, its entry is the optimum. */
  lemma {:induction false} OptimalWithoutTies(w: Matrix, n: nat, m: nat, i: nat, j: nat)
    requires Rectangular(w, n, m) && i <= n && j <= m && NoLosingTie(w, n, m, i, j)
    ensures Optimal(w, n, m, i, j)
    decreases i + j
  {
    if i > 0 && j > 0 {
      OptimalWithoutTies(w, n, m, i - 1, j - 1);
      OptimalWithoutTies(w, n, m, i - 1, j);
      OptimalWithoutTies(w, n, m, i, j - 1);
      assert !LosingTie(w, n, m, i, j);
    }
  }

  /** Without a losing tie no staircase is cheaper than the path found. */
  lemma {:induction false} PathIsBest(w: Matrix, n: nat, m: nat, other: seq<Cell>)
    requires Rectangular(w, n, m) && 0 < n && 0 < m && NoLosingTie(w, n, m, n, m)
    requires Staircase(other, n - 1, m - 1)
    ensures AllIn(n, m, other) && AllIn(n, m, PathTo(w, n, m, n, m))
    ensures Total(w, n, m, PathTo(w, n, m, n, m)) <= Total(w, n, m, other)
  {
    StaircaseInside(other, n - 1, m - 1, n, m);
    PathIsRoute(w, n, m, n, m);
    OptimalWithoutTies(w, n, m, n, m);
    OptimumIsLeast(w, n, m, other, n, m);
  }

  /** Every entry is optimal exactly if no cell has the losing tie. */
  lemma {:induction false} OptimalExactlyWithoutTies(w: Matrix, n: nat, m: nat)
    requires Rectangular(w, n, m)
    ensures AllOptimal(w, n, m) <==> NoLosingTie(w, n, m, n, m)
  {
    if NoLosingTie(w, n, m, n, m) {
      forall i: nat, j: nat | i <= n && j <= m
        ensures Optimal(w, n, m, i, j)
      {
        OptimalWithoutTies(w, n, m, i, j);
      }
    } else {
      var i: nat, j: nat :| 0 < i <= n && 0 < j <= m && LosingTie(w, n, m, i, j);
      TieLoses(w, n, m, i, j);
    }
  }

  lemma {:induction false} TieLoses(w: Matrix, n: nat, m: nat, i: nat, j: nat)
    requires Rectangular(w, n, m) && 0 < i <= n && 0 < j <= m && LosingTie(w, n, m, i, j)
    ensures !Optimal(w, n, m, i, j) || !Optimal(w, n, m, i - 1, j - 1)
  {
  }

  /** The smallest example: the path found has weight 1, the best one weight 0. */
  lemma {:induction false} TieExample()
    ensures var w := [[0.0, 0.0], [1.0, 0.0]];
            CostAt(w, 2, 2, 2, 2) == Finite(1.0) && OptimumAt(w, 2, 2, 2, 2) == Finite(0.0)
  {
    var w := [[0.0, 0.0], [1.0, 0.0]];
    assert CostAt(w, 2, 2, 1, 1) == Finite(0.0) && OptimumAt(w, 2, 2, 1, 1) == Finite(0.0);
    assert CostAt(w, 2, 2, 2, 1) == Finite(1.0) && OptimumAt(w, 2, 2, 2, 1) == Finite(1.0);
    assert CostAt(w, 2, 2, 1, 2) == Finite(0.0) && OptimumAt(w, 2, 2, 1, 2) == Finite(0.0);
  }

  // ---------------------------------------------------------------------------------------------
  // Filling the tables
  // ---------------------------------------------------------------------------------------------

  /** Columns before `j` and, in column `j`, rows before `i` are filled. */
  predicate Visited(i: int, j: int, a: int, b: int) {
    a == 0 || b == 0 || b < j || (b == j && a < i)
  }

  ghost predicate EntryOk(w: Matrix, n: nat, m: nat, a: nat, b: nat, c: Cost, t: int)
    requires Rectangular(w, n, m) && a <= n && b <= m
  {
    c == CostAt(w, n, m, a, b) && (a > 0 && b > 0 ==> t == TraceAt(w, n, m, a, b))
  }

  ghost predicate Filled(w: Matrix, n: nat, m: nat, cost: array2<Cost>, trace: array2<int>, i: int, j: int)
    requires Rectangular(w, n, m) && cost.Length0 == trace.Length0 == n + 1 && cost.Length1 == trace.Length1 == m + 1
    reads cost, trace
  {
    forall a: nat, b: nat {:trigger EntryOk(w, n, m, a, b, cost[a, b], trace[a, b])} ::
      a <= n && b <= m && Visited(i, j, a, b) ==>
      EntryOk(w, n, m, a, b, cost[a, b], trace[a, b])
  }

  /** Entry (i, j) from its three neighbours and its weight. */
  method Combine(c0: Cost, c1: Cost, c2: Cost, v: real) returns (c: Cost, t: int)
    ensures t == Direction(c0, c1, c2) && c == Plus(v, Pick(t, c0, c1, c2))
  {
    if Less(c0, c1) && Less(c0, c2) {
      c, t := c0, 0;
    } else if Less(c1, c0) && Less(c1, c2) {
      c, t := c1, 1;
    } else {
      c, t := c2, 2;
    }
    c := Plus(v, c);
  }

  function Negated(x: Matrix): Matrix {
    seq(|x|, (i: nat) requires i < |x| => seq(|x[i]|, (j: nat) requires j < |x[i]| => -x[i][j]))
  }

  /** What is added up: CTranslate2 negates its matrix entry by entry, whisper.cpp is given the negated one. */
  function Weights(x: Matrix, negate: bool): Matrix {
    if negate then Negated(x) else x
  }

  /** The entry for `i`, `j`, from the three before it. */
  method Entry(x: Matrix, negate: bool, ghost w: Matrix, n: nat, m: nat, cost: array2<Cost>, trace: array2<int>, i: nat,
               j: nat)
    returns (c: Cost, t: int)
    requires Rectangular(x, n, m) && w == Weights(x, negate) && Rectangular(w, n, m)
    requires cost.Length0 == trace.Length0 == n + 1 && cost.Length1 == trace.Length1 == m + 1
    requires 0 < i <= n && 0 < j <= m && Filled(w, n, m, cost, trace, i, j)
    ensures EntryOk(w, n, m, i, j, c, t)
  {
    assert EntryOk(w, n, m, i - 1, j - 1, cost[i - 1, j - 1], trace[i - 1, j - 1]);
    assert EntryOk(w, n, m, i - 1, j, cost[i - 1, j], trace[i - 1, j]);
    assert EntryOk(w, n, m, i, j - 1, cost[i, j - 1], trace[i, j - 1]);
    var v := x[i - 1][j - 1];
    c, t := Combine(cost[i - 1, j - 1], cost[i - 1, j], cost[i, j - 1], if negate then -v else v);
  }

  method FillColumn(x: Matrix, negate: bool, ghost w: Matrix, n: nat, m: nat, cost: array2<Cost>, trace: array2<int>,
                    j: nat)
    requires Rectangular(x, n, m) && w == Weights(x, negate) && Rectangular(w, n, m)
    requires cost.Length0 == trace.Length0 == n + 1 && cost.Length1 == trace.Length1 == m + 1
    requires 0 < j <= m && Filled(w, n, m, cost, trace, 1, j)
    modifies cost, trace
    ensures Filled(w, n, m, cost, trace, 1, j + 1)
  {
    for i := 1 to n + 1
      invariant Filled(w, n, m, cost, trace, i, j)
    {
      var c, t := Entry(x, negate, w, n, m, cost, trace, i, j);
      cost[i, j] := c;
      trace[i, j] := t;
    }
  }

  method FillTables(x: Matrix, negate: bool, ghost w: Matrix, n: nat, m: nat)
    returns (cost: array2<Cost>, trace: array2<int>)
    requires Rectangular(x, n, m) && w == Weights(x, negate) && Rectangular(w, n, m)
    ensures fresh(cost) && fresh(trace)
    ensures cost.Length0 == trace.Length0 == n + 1 && cost.Length1 == trace.Length1 == m + 1
    ensures Filled(w, n, m, cost, trace, 1, m + 1)
  {
    cost := new Cost[n + 1, m + 1]((i, j) => Infinite);
    trace := new int[n + 1, m + 1]((i, j) => -1);
    cost[0, 0] := Finite(0.0);
    for j := 1 to m + 1
      invariant Filled(w, n, m, cost, trace, 1, j)
    {
      FillColumn(x, negate, w, n, m, cost, trace, j);
    }
  }

  // ---------------------------------------------------------------------------------------------
  // Walking back
  // ---------------------------------------------------------------------------------------------

  /** The trace as the walk sees it: right along the first row, down along the first column. */
  ghost predicate TraceReady(w: Matrix, n: nat, m: nat, trace: array2<int>)
    requires Rectangular(w, n, m) && trace.Length0 == n + 1 && trace.Length1 == m + 1
    reads trace
  {
    forall a: nat, b: nat {:trigger trace[a, b]} :: 0 < a <= n && 0 < b <= m ==> trace[a, b] == TraceAt(w, n, m, a, b)
  }

  /** Overwrites the first row with 2 and the first column with 1. */
  method SetBorders(ghost w: Matrix, n: nat, m: nat, cost: array2<Cost>, trace: array2<int>)
    requires Rectangular(w, n, m) && cost.Length0 == trace.Length0 == n + 1 && cost.Length1 == trace.Length1 == m + 1
    requires Filled(w, n, m, cost, trace, 1, m + 1)
    modifies trace
    ensures TraceReady(w, n, m, trace)
  {
    assert TraceReady(w, n, m, trace) by {
      forall a: nat, b: nat | 0 < a <= n && 0 < b <= m
        ensures trace[a, b] == TraceAt(w, n, m, a, b)
      {
        assert EntryOk(w, n, m, a, b, cost[a, b], trace[a, b]);
      }
    }
    for k := 0 to m + 1
      invariant TraceReady(w, n, m, trace)
    {
      trace[0, k] := 2;
    }
    for k := 0 to n + 1
      invariant TraceReady(w, n, m, trace)
    {
      trace[k, 0] := 1;
    }
  }

  /** The part of the path still to be walked from (i, j). */
  ghost function Remaining(w: Matrix, n: nat, m: nat, i: nat, j: nat): seq<Cell>
    requires Rectangular(w, n, m) && i <= n && j <= m
  {
    if i == 0 || j == 0 then [] else PathTo(w, n, m, i, j)
  }

  /** Where one step of the walk leads. */
  method Move(ghost w: Matrix, n: nat, m: nat, trace: array2<int>, i: nat, j: nat) returns (pi: nat, pj: nat)
    requires Rectangular(w, n, m) && trace.Length0 == n + 1 && trace.Length1 == m + 1 && TraceReady(w, n, m, trace)
    requires 0 < i <= n && 0 < j <= m
    ensures pi <= i && pj <= j && pi + pj < i + j && (pi == 0 <==> pj == 0)
    ensures Remaining(w, n, m, i, j) == Remaining(w, n, m, pi, pj) + [Cell(i - 1, j - 1)]
  {
    TraceStaysInside(w, n, m, i, j);
    var t := trace[i, j];
    pi, pj := i, j;
    if t == 0 {
      pi, pj := i - 1, j - 1;
    } else if t == 1 {
      pi := i - 1;
    } else if t == 2 {
      pj := j - 1;
    } else {
      assert false;
    }
  }

  function Reversed(s: seq<Cell>): (r: seq<Cell>)
    ensures |r| == |s|
  {
    seq(|s|, (k: nat) requires k < |s| => s[|s| - 1 - k])
  }

  lemma {:induction false} ReversedPush(s: seq<Cell>, c: Cell)
    ensures Reversed(s + [c]) == [c] + Reversed(s)
  {
  }

  /** CTranslate2: the cells are appended while walking back and reversed at the end. */
  method NegativeDtw(x: Matrix, n: nat, m: nat) returns (path: seq<Cell>)
    requires Rectangular(x, n, m) && 0 < n && 0 < m
    ensures path == PathTo(Negated(x), n, m, n, m)
  {
    ghost var w := Negated(x);
    var cost, trace := FillTables(x, true, w, n, m);
    SetBorders(w, n, m, cost, trace);
    var i, j := n, m;
    var result := [];
    while i > 0 || j > 0
      invariant 0 <= i <= n && 0 <= j <= m && (i == 0 <==> j == 0)
      invariant TraceReady(w, n, m, trace)
      invariant PathTo(w, n, m, n, m) == Remaining(w, n, m, i, j) + Reversed(result)
      decreases i + j
    {
      ReversedPush(result, Cell(i - 1, j - 1));
      ghost var tail := Reversed(result);
      result := result + [Cell(i - 1, j - 1)];
      ghost var cell := Cell(i - 1, j - 1);
      i, j := Move(w, n, m, trace, i, j);
      Sequences.Associative(Remaining(w, n, m, i, j), [cell], tail);
    }
    path := Reversed(result);
  }

  /** The rows of `bt` behind `row`. */
  ghost function RowsBehind(bt: array2<int>, row: int): (rows: seq<Cell>)
    requires bt.Length1 == 2 && -1 <= row < bt.Length0
    reads bt
    ensures |rows| == bt.Length0 - 1 - row
  {
    seq(bt.Length0 - 1 - row, (k: nat) requires k < bt.Length0 - 1 - row reads bt =>
      Cell(bt[row + 1 + k, 0], bt[row + 1 + k, 1]))
  }

  method WriteRow(bt: array2<int>, row: int, i: int, j: int)
    requires bt.Length1 == 2 && 0 <= row < bt.Length0
    modifies bt
    ensures RowsBehind(bt, row - 1) == [Cell(i, j)] + old(RowsBehind(bt, row))
  {
    bt[row, 0] := i;
    bt[row, 1] := j;
  }

  method Clip(bt: array2<int>, row: int) returns (path: seq<Cell>)
    requires bt.Length1 == 2 && -1 <= row < bt.Length0
    ensures path == RowsBehind(bt, row)
  {
    path := [];
    for k := 0 to bt.Length0 - row - 1
      invariant path == RowsBehind(bt, row)[..k]
    {
      path := path + [Cell(bt[k + row + 1, 0], bt[k + row + 1, 1])];
    }
  }

  lemma {:induction false} RoomLeft(path: seq<Cell>, remaining: seq<Cell>, rows: seq<Cell>, size: int, row: int)
    requires path == remaining + rows && |path| <= size && |rows| == size - 1 - row
    ensures |remaining| <= row + 1
  {
  }

  /** One round of whisper.cpp's walk. */
  method RecordStep(ghost w: Matrix, n: nat, m: nat, trace: array2<int>, bt: array2<int>, row: nat, i: nat, j: nat)
    returns (pi: nat, pj: nat)
    requires Rectangular(w, n, m) && trace.Length0 == n + 1 && trace.Length1 == m + 1 && TraceReady(w, n, m, trace)
    requires bt != trace && bt.Length1 == 2 && row < bt.Length0 && 0 < i <= n && 0 < j <= m
    modifies bt
    ensures pi <= i && pj <= j && pi + pj < i + j && (pi == 0 <==> pj == 0) && TraceReady(w, n, m, trace)
    ensures Remaining(w, n, m, pi, pj) + RowsBehind(bt, row - 1) == Remaining(w, n, m, i, j) + old(RowsBehind(bt, row))
  {
    ghost var rows, cell := RowsBehind(bt, row), Cell(i - 1, j - 1);
    WriteRow(bt, row, i - 1, j - 1);
    pi, pj := Move(w, n, m, trace, i, j);
    Sequences.Associative(Remaining(w, n, m, pi, pj), [cell], rows);
  }

  /** whisper.cpp: the cells are written into N + M - 1 rows from the last one up, and then clipped. */
  method DtwAndBacktrace(x: Matrix, n: nat, m: nat) returns (path: seq<Cell>)
    requires Rectangular(x, n, m) && 0 < n && 0 < m
    ensures path == PathTo(x, n, m, n, m)
  {
    var cost, trace := FillTables(x, false, x, n, m);
    var bt := new int[n + m - 1, 2]((i, j) => 0);
    SetBorders(x, n, m, cost, trace);
    PathIsRoute(x, n, m, n, m);
    ghost var whole := PathTo(x, n, m, n, m);
    var row := n + m - 2;
    var i, j := n, m;
    while i > 0 || j > 0
      invariant 0 <= i <= n && 0 <= j <= m && (i == 0 <==> j == 0) && -1 <= row < n + m - 1
      invariant TraceReady(x, n, m, trace)
      invariant whole == Remaining(x, n, m, i, j) + RowsBehind(bt, row)
      decreases i + j
    {
      RoomLeft(whole, Remaining(x, n, m, i, j), RowsBehind(bt, row), n + m - 1, row);
      i, j := RecordStep(x, n, m, trace, bt, row, i, j);
      row := row - 1;
    }
    path := Clip(bt, row);
  }

  /** Both return the same path when whisper.cpp is given the negated matrix, and it is a route of the table's cost. */
  method SamePath(x: Matrix, n: nat, m: nat) returns (first: seq<Cell>, second: seq<Cell>)
    requires Rectangular(x, n, m) && 0 < n && 0 < m
    ensures Rectangular(Negated(x), n, m)
    ensures first == second && IsRoute(Negated(x), n, m, first, n, m, CostAt(Negated(x), n, m, n, m))
  {
    first := NegativeDtw(x, n, m);
    second := DtwAndBacktrace(Negated(x), n, m);
    PathIsRoute(Negated(x), n, m, n, m);
  }
}
