/** Steepest descent over 2x2 reallocations (improve_with_rectangles).
    Each pass scans every rectangle with rows r1 < r2 and columns c1 < c2, keeps the
    first move with the most negative cost change, and shifts the smaller donor amount
    around the rectangle; the loop stops when no move lowers the cost. */
module RectangleOptimizer {
  import opened Wrappers
  import opened Matrices
  import opened CostEvaluator

  /** A move on the rectangle with corners (r1,c1), (r1,c2), (r2,c1), (r2,c2).
      Type 1 (type2 == false) takes from (r1,c1) and (r2,c2) and gives to (r1,c2) and (r2,c1);
      type 2 takes from (r1,c2) and (r2,c1) and gives to (r1,c1) and (r2,c2). */
  datatype Swap = Swap(r1: nat, c1: nat, r2: nat, c2: nat, type2: bool)

  predicate OnGrid(g: Matrix, x: Swap) {
    x.r1 < x.r2 < |g| && x.c1 < x.c2 < |g[x.r1]| && x.c2 < |g[x.r2]|
  }

  /** The two cells a move takes from. */
  function DonorA(g: Matrix, x: Swap): int
    requires OnGrid(g, x)
  {
    if x.type2 then g[x.r1][x.c2] else g[x.r1][x.c1]
  }

  function DonorB(g: Matrix, x: Swap): int
    requires OnGrid(g, x)
  {
    if x.type2 then g[x.r2][x.c1] else g[x.r2][x.c2]
  }

  /** A move is considered only when both of its donor cells hold a positive amount. */
  predicate Admissible(g: Matrix, x: Swap) {
    OnGrid(g, x) && DonorA(g, x) > 0 && DonorB(g, x) > 0
  }

  /** Cost change per unit moved: receivers' unit costs minus donors' unit costs. */
  function Delta(cost: Matrix, x: Swap): int
    requires OnGrid(cost, x)
  {
    if !x.type2 then
      (cost[x.r1][x.c2] + cost[x.r2][x.c1]) - (cost[x.r1][x.c1] + cost[x.r2][x.c2])
    else
      (cost[x.r1][x.c1] + cost[x.r2][x.c2]) - (cost[x.r1][x.c2] + cost[x.r2][x.c1])
  }

  /** The amount moved: the smaller of the two donor cells. */
  function Theta(g: Matrix, x: Swap): int
    requires OnGrid(g, x)
  {
    if DonorA(g, x) < DonorB(g, x) then DonorA(g, x) else DonorB(g, x)
  }

  /** The four-corner shift of t units: the receivers gain t, the donors lose t. */
  function Shift(g: Matrix, x: Swap, t: int): (r: Matrix)
    requires OnGrid(g, x) && IsGrid(g, |g|, |g[x.r1]|)
    ensures SameShape(r, g)
  {
    if !x.type2 then
      Add(Add(Add(Add(g, x.r1, x.c2, t), x.r2, x.c1, t), x.r1, x.c1, -t), x.r2, x.c2, -t)
    else
      Add(Add(Add(Add(g, x.r1, x.c1, t), x.r2, x.c2, t), x.r1, x.c2, -t), x.r2, x.c1, -t)
  }

  /** The order in which the scan visits moves: r1, then c1, then r2, then c2, type 1 before type 2. */
  predicate Precedes(x: Swap, y: Swap) {
    x.r1 < y.r1 || (x.r1 == y.r1 &&
    (x.c1 < y.c1 || (x.c1 == y.c1 &&
    (x.r2 < y.r2 || (x.r2 == y.r2 &&
    (x.c2 < y.c2 || (x.c2 == y.c2 && !x.type2 && y.type2)))))))
  }

  /** No admissible move lowers the cost. */
  ghost predicate LocallyOptimal(cost: Matrix, g: Matrix)
    requires SameShape(cost, g)
  {
    forall x :: Admissible(g, x) ==> Delta(cost, x) >= 0
  }

  /** x is the move the scan keeps: admissible, cost-lowering, with the least cost change,
      and strictly better than every admissible move visited before it. */
  ghost predicate IsFirstBest(cost: Matrix, g: Matrix, x: Swap)
    requires SameShape(cost, g)
  {
    Admissible(g, x) && Delta(cost, x) < 0 &&
    (forall y :: Admissible(g, y) ==> Delta(cost, x) <= Delta(cost, y)) &&
    (forall y :: Admissible(g, y) && Precedes(y, x) ==> Delta(cost, x) < Delta(cost, y))
  }

  /** What the scan knows once every move before pos has been visited. */
  ghost predicate ScannedUpTo(cost: Matrix, g: Matrix, best: Option<Swap>, bestDelta: int, pos: Swap)
    requires SameShape(cost, g)
  {
    (best.None? ==> bestDelta == 0) &&
    (best.Some? ==>
      Admissible(g, best.value) && Precedes(best.value, pos) &&
      bestDelta == Delta(cost, best.value) && bestDelta < 0 &&
      forall y :: Admissible(g, y) && Precedes(y, best.value) ==> bestDelta < Delta(cost, y)) &&
    forall y :: Admissible(g, y) && Precedes(y, pos) ==> bestDelta <= Delta(cost, y)
  }

  /** The bookkeeping after visiting x: x replaces the kept move only when it is
      admissible and strictly better than the best delta so far. */
  function KeepBetter(cost: Matrix, g: Matrix, best: Option<Swap>, bestDelta: int, x: Swap): (Option<Swap>, int)
    requires SameShape(cost, g)
  {
    if Admissible(g, x) && Delta(cost, x) < bestDelta then (Some(x), Delta(cost, x)) else (best, bestDelta)
  }

  /** The move the scan visits right after x within one rectangle row of the loop nest. */
  function NextInScan(x: Swap): Swap {
    if !x.type2 then x.(type2 := true) else Swap(x.r1, x.c1, x.r2, x.c2 + 1, false)
  }

  /** Visiting x with the strict-improvement rule extends what the scan knows past x. */
  lemma Visit(cost: Matrix, g: Matrix, best: Option<Swap>, bestDelta: int, x: Swap)
    requires SameShape(cost, g)
    requires ScannedUpTo(cost, g, best, bestDelta, x)
    ensures ScannedUpTo(cost, g, KeepBetter(cost, g, best, bestDelta, x).0,
                        KeepBetter(cost, g, best, bestDelta, x).1, NextInScan(x))
  {
    var (best', bestDelta') := KeepBetter(cost, g, best, bestDelta, x);
    forall y | Admissible(g, y) && Precedes(y, NextInScan(x))
      ensures bestDelta' <= Delta(cost, y)
    {
      if !Precedes(y, x) {
        assert y == x;
      }
    }
  }

  /** Visiting both moves of one rectangle, type 1 first. */
  lemma VisitRectangle(cost: Matrix, g: Matrix, best: Option<Swap>, bestDelta: int, x: Swap)
    requires SameShape(cost, g) && !x.type2
    requires ScannedUpTo(cost, g, best, bestDelta, x)
    ensures var k1 := KeepBetter(cost, g, best, bestDelta, x);
            var k2 := KeepBetter(cost, g, k1.0, k1.1, x.(type2 := true));
            ScannedUpTo(cost, g, k2.0, k2.1, Swap(x.r1, x.c1, x.r2, x.c2 + 1, false))
  {
    Visit(cost, g, best, bestDelta, x);
    var k1 := KeepBetter(cost, g, best, bestDelta, x);
    Visit(cost, g, k1.0, k1.1, x.(type2 := true));
  }

  /** When no admissible move lies between pos and pos', what is known up to pos holds up to pos'. */
  lemma ScanExtend(cost: Matrix, g: Matrix, best: Option<Swap>, bestDelta: int, pos: Swap, pos': Swap)
    requires SameShape(cost, g)
    requires ScannedUpTo(cost, g, best, bestDelta, pos)
    requires !Precedes(pos', pos)
    requires forall y :: OnGrid(g, y) && Precedes(y, pos') ==> Precedes(y, pos)
    ensures ScannedUpTo(cost, g, best, bestDelta, pos')
  {
  }

  /** Before the first c2 of a row of rectangles: no move lies between c2 = 0 and c2 = c1 + 1. */
  lemma EnterRow(cost: Matrix, g: Matrix, best: Option<Swap>, bestDelta: int, r1: nat, c1: nat, r2: nat)
    requires SameShape(cost, g)
    requires ScannedUpTo(cost, g, best, bestDelta, Swap(r1, c1, r2, 0, false))
    ensures ScannedUpTo(cost, g, best, bestDelta, Swap(r1, c1, r2, c1 + 1, false))
  {
    ScanExtend(cost, g, best, bestDelta, Swap(r1, c1, r2, 0, false), Swap(r1, c1, r2, c1 + 1, false));
  }

  /** After the last c2 (n - 1) of a row of rectangles comes the next r2. */
  lemma LeaveRow(cost: Matrix, g: Matrix, best: Option<Swap>, bestDelta: int, r1: nat, c1: nat, r2: nat)
    requires SameShape(cost, g) && r1 < |g|
    requires ScannedUpTo(cost, g, best, bestDelta, Swap(r1, c1, r2, |g[r1]|, false))
    ensures ScannedUpTo(cost, g, best, bestDelta, Swap(r1, c1, r2 + 1, 0, false))
  {
    ScanExtend(cost, g, best, bestDelta, Swap(r1, c1, r2, |g[r1]|, false), Swap(r1, c1, r2 + 1, 0, false));
  }

  /** Before the first r2 of a corner: no move lies between r2 = 0 and r2 = r1 + 1. */
  lemma EnterCorner(cost: Matrix, g: Matrix, best: Option<Swap>, bestDelta: int, r1: nat, c1: nat)
    requires SameShape(cost, g)
    requires ScannedUpTo(cost, g, best, bestDelta, Swap(r1, c1, 0, 0, false))
    ensures ScannedUpTo(cost, g, best, bestDelta, Swap(r1, c1, r1 + 1, 0, false))
  {
    ScanExtend(cost, g, best, bestDelta, Swap(r1, c1, 0, 0, false), Swap(r1, c1, r1 + 1, 0, false));
  }

  /** After the last r2 (m - 1) of a corner comes the next c1. */
  lemma LeaveCorner(cost: Matrix, g: Matrix, best: Option<Swap>, bestDelta: int, r1: nat, c1: nat)
    requires SameShape(cost, g)
    requires ScannedUpTo(cost, g, best, bestDelta, Swap(r1, c1, |g|, 0, false))
    ensures ScannedUpTo(cost, g, best, bestDelta, Swap(r1, c1 + 1, 0, 0, false))
  {
    ScanExtend(cost, g, best, bestDelta, Swap(r1, c1, |g|, 0, false), Swap(r1, c1 + 1, 0, 0, false));
  }

  /** The body of the innermost loop: checks the type 1 move and then the type 2 move
      of the rectangle with corners (r1, c1) and (r2, c2). */
  method CheckRectangle(cost: Matrix, alloc: array2<int>, r1: nat, c1: nat, r2: nat, c2: nat,
                        best0: Option<Swap>, bestDelta0: int)
    returns (best: Option<Swap>, bestDelta: int)
    requires IsGrid(cost, alloc.Length0, alloc.Length1)
    requires r1 < r2 < alloc.Length0 && c1 < c2 < alloc.Length1
    requires ScannedUpTo(cost, Cells(alloc), best0, bestDelta0, Swap(r1, c1, r2, c2, false))
    ensures ScannedUpTo(cost, Cells(alloc), best, bestDelta, Swap(r1, c1, r2, c2 + 1, false))
  {
    ghost var g := Cells(alloc);
    var x1, x2 := Swap(r1, c1, r2, c2, false), Swap(r1, c1, r2, c2, true);
    VisitRectangle(cost, g, best0, bestDelta0, x1);
    best, bestDelta := best0, bestDelta0;
    var delta1 := (cost[r1][c2] + cost[r2][c1]) - (cost[r1][c1] + cost[r2][c2]);
    if alloc[r1, c1] > 0 && alloc[r2, c2] > 0 && delta1 < bestDelta {
      bestDelta := delta1;
      best := Some(x1);
    }
    ghost var kept1 := KeepBetter(cost, g, best0, bestDelta0, x1);
    assert best == kept1.0 && bestDelta == kept1.1;
    var delta2 := (cost[r1][c1] + cost[r2][c2]) - (cost[r1][c2] + cost[r2][c1]);
    if alloc[r1, c2] > 0 && alloc[r2, c1] > 0 && delta2 < bestDelta {
      bestDelta := delta2;
      best := Some(x2);
    }
    ghost var kept2 := KeepBetter(cost, g, kept1.0, kept1.1, x2);
    assert best == kept2.0 && bestDelta == kept2.1;
  }

  /** The innermost loop of the scan: the rectangles with rows r1, r2 and left column c1. */
  method ScanRow(cost: Matrix, alloc: array2<int>, r1: nat, c1: nat, r2: nat, best0: Option<Swap>, bestDelta0: int)
    returns (best: Option<Swap>, bestDelta: int)
    requires IsGrid(cost, alloc.Length0, alloc.Length1)
    requires r1 < r2 < alloc.Length0 && c1 < alloc.Length1
    requires ScannedUpTo(cost, Cells(alloc), best0, bestDelta0, Swap(r1, c1, r2, 0, false))
    ensures ScannedUpTo(cost, Cells(alloc), best, bestDelta, Swap(r1, c1, r2 + 1, 0, false))
  {
    ghost var g := Cells(alloc);
    var n := alloc.Length1;
    best, bestDelta := best0, bestDelta0;
    EnterRow(cost, g, best, bestDelta, r1, c1, r2);
    for c2 := c1 + 1 to n
      invariant ScannedUpTo(cost, g, best, bestDelta, Swap(r1, c1, r2, c2, false))
    {
      best, bestDelta := CheckRectangle(cost, alloc, r1, c1, r2, c2, best, bestDelta);
    }
    LeaveRow(cost, g, best, bestDelta, r1, c1, r2);
  }

  /** The r2 loop of the scan: every rectangle whose top-left corner is (r1, c1). */
  method ScanCorner(cost: Matrix, alloc: array2<int>, r1: nat, c1: nat, best0: Option<Swap>, bestDelta0: int)
    returns (best: Option<Swap>, bestDelta: int)
    requires IsGrid(cost, alloc.Length0, alloc.Length1) && r1 < alloc.Length0 && c1 < alloc.Length1
    requires ScannedUpTo(cost, Cells(alloc), best0, bestDelta0, Swap(r1, c1, 0, 0, false))
    ensures ScannedUpTo(cost, Cells(alloc), best, bestDelta, Swap(r1, c1 + 1, 0, 0, false))
  {
    ghost var g := Cells(alloc);
    var m := alloc.Length0;
    best, bestDelta := best0, bestDelta0;
    EnterCorner(cost, g, best, bestDelta, r1, c1);
    for r2 := r1 + 1 to m
      invariant ScannedUpTo(cost, g, best, bestDelta, Swap(r1, c1, r2, 0, false))
    {
      best, bestDelta := ScanRow(cost, alloc, r1, c1, r2, best, bestDelta);
    }
    LeaveCorner(cost, g, best, bestDelta, r1, c1);
  }

  /** One scan over all rectangles (the loop nest of improve_with_rectangles, r1 outermost).
      best_delta starts at 0 and is replaced only by a strictly smaller delta. */
  method FindBestSwap(cost: Matrix, alloc: array2<int>) returns (best: Option<Swap>)
    requires IsGrid(cost, alloc.Length0, alloc.Length1)
    ensures best.None? <==> LocallyOptimal(cost, Cells(alloc))
    ensures best.Some? ==> IsFirstBest(cost, Cells(alloc), best.value)
  {
    ghost var g := Cells(alloc);
    var m, n := alloc.Length0, alloc.Length1;
    var bestDelta := 0;
    best := None;
    for r1 := 0 to m
      invariant ScannedUpTo(cost, g, best, bestDelta, Swap(r1, 0, 0, 0, false))
    {
      for c1 := 0 to n
        invariant ScannedUpTo(cost, g, best, bestDelta, Swap(r1, c1, 0, 0, false))
      {
        best, bestDelta := ScanCorner(cost, alloc, r1, c1, best, bestDelta);
      }
      ScanExtend(cost, g, best, bestDelta, Swap(r1, n, 0, 0, false), Swap(r1 + 1, 0, 0, 0, false));
    }
    ScanExtend(cost, g, best, bestDelta, Swap(m, 0, 0, 0, false), Swap(m, 0, 0, 0, false));
  }

  /** The cells of a shifted grid: the donors lose t, the receivers gain t, nothing else changes. */
  lemma ShiftCells(g: Matrix, x: Swap, t: int)
    requires OnGrid(g, x) && IsGrid(g, |g|, |g[x.r1]|)
    ensures IsGrid(Shift(g, x, t), |g|, |g[x.r1]|)
    ensures forall i, j :: 0 <= i < |g| && 0 <= j < |g[x.r1]| ==>
      Shift(g, x, t)[i][j] == g[i][j] + ShiftAt(x, t, i, j)
  {
  }

  /** The amount the shift adds to cell (i, j). */
  function ShiftAt(x: Swap, t: int, i: nat, j: nat): int {
    var donor := if !x.type2 then (i == x.r1 && j == x.c1) || (i == x.r2 && j == x.c2)
                 else (i == x.r1 && j == x.c2) || (i == x.r2 && j == x.c1);
    var receiver := if !x.type2 then (i == x.r1 && j == x.c2) || (i == x.r2 && j == x.c1)
                    else (i == x.r1 && j == x.c1) || (i == x.r2 && j == x.c2);
    if donor then -t else if receiver then t else 0
  }

  /** A shift keeps every row total and every column total. */
  lemma ShiftConserves(g: Matrix, x: Swap, t: int)
    requires OnGrid(g, x) && IsGrid(g, |g|, |g[x.r1]|)
    ensures IsGrid(Shift(g, x, t), |g|, |g[x.r1]|)
    ensures forall i :: 0 <= i < |g| ==> RowSum(Shift(g, x, t), i) == RowSum(g, i)
    ensures forall j :: 0 <= j < |g[x.r1]| ==> ColSum(Shift(g, x, t), j) == ColSum(g, j)
  {
    var p, q, s, u := x.r1, x.c1, x.r2, x.c2;
    if !x.type2 {
      CrossAddsConserve(g, |g|, |g[p]|, p, q, s, u, t);
    } else {
      CrossAddsConserve(g, |g|, |g[p]|, p, u, s, q, t);
    }
  }

  /** Adding t at (p, u) and (s, q) and taking t from (p, q) and (s, u) keeps all totals. */
  lemma CrossAddsConserve(g: Matrix, m: nat, n: nat, p: nat, q: nat, s: nat, u: nat, t: int)
    requires IsGrid(g, m, n) && p < m && s < m && q < n && u < n
    ensures var h := Add(Add(Add(Add(g, p, u, t), s, q, t), p, q, -t), s, u, -t);
      IsGrid(h, m, n) &&
      (forall i :: 0 <= i < m ==> RowSum(h, i) == RowSum(g, i)) &&
      (forall j :: 0 <= j < n ==> ColSum(h, j) == ColSum(g, j))
  {
    var g1 := Add(g, p, u, t);
    AddSums(g, m, n, p, u, t);
    var g2 := Add(g1, s, q, t);
    AddSums(g1, m, n, s, q, t);
    var g3 := Add(g2, p, q, -t);
    AddSums(g2, m, n, p, q, -t);
    AddSums(g3, m, n, s, u, -t);
  }

  /** A shift of t units changes the total cost by exactly Delta * t. */
  lemma ShiftCost(cost: Matrix, g: Matrix, x: Swap, t: int)
    requires SameShape(cost, g) && OnGrid(g, x) && IsGrid(g, |g|, |g[x.r1]|)
    ensures SameShape(cost, Shift(g, x, t))
    ensures Cost(cost, Shift(g, x, t)) == Cost(cost, g) + Delta(cost, x) * t
  {
    var p, q, s, u := x.r1, x.c1, x.r2, x.c2;
    if !x.type2 {
      FourAdds(cost, g, |g[p]|, p, u, s, q, p, q, s, u, t);
      ScaleDifference(cost[p][u], cost[s][q], cost[p][q], cost[s][u], t);
    } else {
      FourAdds(cost, g, |g[p]|, p, q, s, u, p, u, s, q, t);
      ScaleDifference(cost[p][q], cost[s][u], cost[p][u], cost[s][q], t);
    }
  }

  /** Cost after adding t at two cells and -t at two others. */
  lemma FourAdds(cost: Matrix, g: Matrix, n: nat, a1: nat, b1: nat, a2: nat, b2: nat,
                 d1: nat, e1: nat, d2: nat, e2: nat, t: int)
    requires SameShape(cost, g) && IsGrid(g, |g|, n)
    requires a1 < |g| && a2 < |g| && d1 < |g| && d2 < |g|
    requires b1 < n && b2 < n && e1 < n && e2 < n
    ensures var h := Add(Add(Add(Add(g, a1, b1, t), a2, b2, t), d1, e1, -t), d2, e2, -t);
      SameShape(cost, h) &&
      Cost(cost, h) == Cost(cost, g) + cost[a1][b1] * t + cost[a2][b2] * t
                       + cost[d1][e1] * -t + cost[d2][e2] * -t
  {
    var k1, k2, k3, k4 := cost[a1][b1] * t, cost[a2][b2] * t, cost[d1][e1] * -t, cost[d2][e2] * -t;
    var g1 := Add(g, a1, b1, t);
    AddCost(cost, g, a1, b1, t);
    assert Cost(cost, g1) == Cost(cost, g) + k1;
    var g2 := Add(g1, a2, b2, t);
    AddCost(cost, g1, a2, b2, t);
    assert Cost(cost, g2) == Cost(cost, g1) + k2;
    var g3 := Add(g2, d1, e1, -t);
    AddCost(cost, g2, d1, e1, -t);
    assert Cost(cost, g3) == Cost(cost, g2) + k3;
    var g4 := Add(g3, d2, e2, -t);
    AddCost(cost, g3, d2, e2, -t);
    assert Cost(cost, g4) == Cost(cost, g3) + k4;
  }

  lemma ScaleDifference(a: int, b: int, c: int, d: int, t: int)
    ensures a * t + b * t + c * -t + d * -t == ((a + b) - (c + d)) * t
  {
  }

  /** Shifting theta = min(donors) of an admissible move keeps every cell nonnegative,
      moves a positive amount and empties at least one donor. */
  lemma ShiftByTheta(g: Matrix, x: Swap)
    requires Admissible(g, x) && IsGrid(g, |g|, |g[x.r1]|) && Nonneg(g)
    ensures Theta(g, x) > 0
    ensures Nonneg(Shift(g, x, Theta(g, x)))
    ensures DonorA(Shift(g, x, Theta(g, x)), x) == 0 || DonorB(Shift(g, x, Theta(g, x)), x) == 0
  {
    ShiftCells(g, x, Theta(g, x));
  }

  lemma NegativeTimesPositive(d: int, t: int)
    requires d < 0 && t > 0
    ensures d * t <= -1
  {
    assert d * t == d * (t - 1) + d;
  }

  /** One `alloc[i][j] += d` statement. */
  method AddAt(alloc: array2<int>, i: nat, j: nat, d: int)
    requires i < alloc.Length0 && j < alloc.Length1
    modifies alloc
    ensures Cells(alloc) == Add(old(Cells(alloc)), i, j, d)
  {
    ghost var g := Cells(alloc);
    alloc[i, j] := alloc[i, j] + d;
    GridEq(Cells(alloc), Add(g, i, j, d), alloc.Length0, alloc.Length1);
  }

  /** theta: the smaller of the kept move's two donor cells, positive for an admissible move. */
  method SmallerDonor(alloc: array2<int>, x: Swap) returns (theta: int)
    requires Admissible(Cells(alloc), x)
    ensures theta == Theta(Cells(alloc), x) && theta > 0
  {
    var r1, c1, r2, c2 := x.r1, x.c1, x.r2, x.c2;
    if !x.type2 {
      theta := if alloc[r1, c1] < alloc[r2, c2] then alloc[r1, c1] else alloc[r2, c2];
    } else {
      theta := if alloc[r1, c2] < alloc[r2, c1] then alloc[r1, c2] else alloc[r2, c1];
    }
  }

  /** Applies the kept move in place (the update block of improve_with_rectangles).
      The source's `theta <= 0` guard cannot fire: both donors are positive. */
  method ApplySwap(alloc: array2<int>, x: Swap) returns (theta: int)
    requires Admissible(Cells(alloc), x)
    modifies alloc
    ensures theta == Theta(old(Cells(alloc)), x) && theta > 0
    ensures Cells(alloc) == Shift(old(Cells(alloc)), x, theta)
  {
    theta := SmallerDonor(alloc, x);
    var r1, c1, r2, c2 := x.r1, x.c1, x.r2, x.c2;
    if !x.type2 {
      AddAt(alloc, r1, c2, theta);
      AddAt(alloc, r2, c1, theta);
      AddAt(alloc, r1, c1, -theta);
      AddAt(alloc, r2, c2, -theta);
    } else {
      AddAt(alloc, r1, c1, theta);
      AddAt(alloc, r2, c2, theta);
      AddAt(alloc, r1, c2, -theta);
      AddAt(alloc, r2, c1, -theta);
    }
  }

  /** One pass of improve_with_rectangles: x is the move the scan keeps on g, and g' is g
      with theta, the smaller donor amount, shifted around x's rectangle. */
  ghost predicate IsDescentStep(cost: Matrix, m: nat, n: nat, g: Matrix, x: Swap, g': Matrix)
    requires IsGrid(cost, m, n) && IsGrid(g, m, n)
  {
    IsFirstBest(cost, g, x) && g' == Shift(g, x, Theta(g, x))
  }

  /** A pass lowers the total cost, keeps cells nonnegative and keeps every row and column total. */
  lemma DescentStepEffect(cost: Matrix, m: nat, n: nat, g: Matrix, x: Swap, g': Matrix)
    requires IsGrid(cost, m, n) && IsGrid(g, m, n) && Nonneg(g)
    requires IsDescentStep(cost, m, n, g, x, g')
    ensures IsGrid(g', m, n) && Nonneg(g')
    ensures forall i :: 0 <= i < m ==> RowSum(g', i) == RowSum(g, i)
    ensures forall j :: 0 <= j < n ==> ColSum(g', j) == ColSum(g, j)
    ensures Cost(cost, g') < Cost(cost, g)
  {
    ShiftByTheta(g, x);
    ShiftConserves(g, x, Theta(g, x));
    ShiftCost(cost, g, x, Theta(g, x));
    NegativeTimesPositive(Delta(cost, x), Theta(g, x));
  }

  /** trace is a run of improve_with_rectangles: each later grid follows from the one before
      by the pass that applies the recorded move. */
  ghost predicate IsDescentRun(cost: Matrix, m: nat, n: nat, trace: seq<Matrix>, moves: seq<Swap>)
    requires IsGrid(cost, m, n)
  {
    |trace| == |moves| + 1 && (forall k :: 0 <= k < |trace| ==> IsGrid(trace[k], m, n)) &&
    forall k {:trigger moves[k]} :: 0 <= k < |moves| ==> IsDescentStep(cost, m, n, trace[k], moves[k], trace[k + 1])
  }

  /** A run followed by one more pass is a run with the same first grid. */
  lemma ExtendDescent(cost: Matrix, m: nat, n: nat, trace: seq<Matrix>, moves: seq<Swap>, x: Swap, g': Matrix)
    requires IsGrid(cost, m, n) && IsDescentRun(cost, m, n, trace, moves) && Nonneg(trace[|trace| - 1])
    requires IsDescentStep(cost, m, n, trace[|trace| - 1], x, g')
    ensures IsDescentRun(cost, m, n, trace + [g'], moves + [x])
    ensures (trace + [g'])[0] == trace[0] && (trace + [g'])[|trace|] == g'
  {
    DescentStepEffect(cost, m, n, trace[|trace| - 1], x, g');
    assert (trace + [g'])[..|trace|] == trace;
  }

  /** After k passes of a run that starts nonnegative, the grid is nonnegative, every row
      and column total is what it was, and the cost has dropped by at least k. */
  lemma {:induction false} DescentRunPrefix(cost: Matrix, m: nat, n: nat, trace: seq<Matrix>, moves: seq<Swap>, k: nat)
    requires IsGrid(cost, m, n) && IsDescentRun(cost, m, n, trace, moves) && Nonneg(trace[0])
    requires k < |trace|
    ensures Nonneg(trace[k])
    ensures forall i :: 0 <= i < m ==> RowSum(trace[k], i) == RowSum(trace[0], i)
    ensures forall j :: 0 <= j < n ==> ColSum(trace[k], j) == ColSum(trace[0], j)
    ensures Cost(cost, trace[k]) + k <= Cost(cost, trace[0])
  {
    if k > 0 {
      DescentRunPrefix(cost, m, n, trace, moves, k - 1);
      DescentStepEffect(cost, m, n, trace[k - 1], moves[k - 1], trace[k]);
    }
  }

  /** Along a run that starts nonnegative every pass strictly lowers the total cost. */
  lemma DescentRunLowersCost(cost: Matrix, m: nat, n: nat, trace: seq<Matrix>, moves: seq<Swap>)
    requires IsGrid(cost, m, n) && IsDescentRun(cost, m, n, trace, moves) && Nonneg(trace[0])
    ensures forall k :: 0 <= k < |moves| ==> Cost(cost, trace[k + 1]) < Cost(cost, trace[k])
  {
    forall k | 0 <= k < |moves|
      ensures Cost(cost, trace[k + 1]) < Cost(cost, trace[k])
    {
      DescentRunPrefix(cost, m, n, trace, moves, k);
      DescentStepEffect(cost, m, n, trace[k], moves[k], trace[k + 1]);
    }
  }

  /** A run with at least one pass starts at a grid that is not locally optimal: the first
      pass applies a move that lowers the cost there. */
  lemma FirstPassNotOptimal(cost: Matrix, m: nat, n: nat, trace: seq<Matrix>, moves: seq<Swap>)
    requires IsGrid(cost, m, n) && IsDescentRun(cost, m, n, trace, moves) && moves != []
    ensures !LocallyOptimal(cost, trace[0])
  {
    assert IsDescentStep(cost, m, n, trace[0], moves[0], trace[1]);
  }

  /** One pass of the improvement loop: scan, then apply the kept move if there is one. */
  method ImprovePass(cost: Matrix, alloc: array2<int>) returns (best: Option<Swap>)
    requires IsGrid(cost, alloc.Length0, alloc.Length1) && Nonneg(Cells(alloc))
    modifies alloc
    ensures best.None? <==> LocallyOptimal(cost, old(Cells(alloc)))
    ensures best.None? ==> Cells(alloc) == old(Cells(alloc))
    ensures best.Some? ==> IsDescentStep(cost, alloc.Length0, alloc.Length1, old(Cells(alloc)), best.value, Cells(alloc))
  {
    best := FindBestSwap(cost, alloc);
    if best.Some? {
      ghost var g := Cells(alloc);
      ShiftByTheta(g, best.value);
      var theta := ApplySwap(alloc, best.value);
    }
  }

  /** The loop of improve_with_rectangles: scan and apply until the scan finds no move.
      trace holds the grid before and after each pass, and moves the move each pass applied. */
  method DescentLoop(cost: Matrix, alloc: array2<int>) returns (applied: nat, ghost trace: seq<Matrix>, ghost moves: seq<Swap>)
    requires IsGrid(cost, alloc.Length0, alloc.Length1)
    requires Nonneg(cost) && Nonneg(Cells(alloc))
    modifies alloc
    ensures IsDescentRun(cost, alloc.Length0, alloc.Length1, trace, moves) && |moves| == applied
    ensures trace[0] == old(Cells(alloc)) && trace[applied] == Cells(alloc)
    ensures LocallyOptimal(cost, Cells(alloc))
  {
    var m, n := alloc.Length0, alloc.Length1;
    applied := 0;
    trace, moves := [Cells(alloc)], [];
    while true
      invariant IsDescentRun(cost, m, n, trace, moves) && |moves| == applied
      invariant trace[0] == old(Cells(alloc)) && trace[applied] == Cells(alloc)
      invariant Nonneg(Cells(alloc))
      decreases Cost(cost, Cells(alloc))
    {
      ghost var g := Cells(alloc);
      CostNonneg(cost, g);
      var best := ImprovePass(cost, alloc);
      if best.None? {
        break;
      }
      DescentStepEffect(cost, m, n, g, best.value, Cells(alloc));
      ExtendDescent(cost, m, n, trace, moves, best.value, Cells(alloc));
      trace, moves := trace + [Cells(alloc)], moves + [best.value];
      applied := applied + 1;
    }
  }

  /** improve_with_rectangles: repeat the scan and apply its move until no move lowers the cost.
      Each applied move lowers the total cost by at least one, which bounds the loop. trace
      holds the grid before and after each pass, and moves the move each pass applied. */
  method Improve(cost: Matrix, alloc: array2<int>) returns (applied: nat, ghost trace: seq<Matrix>, ghost moves: seq<Swap>)
    requires IsGrid(cost, alloc.Length0, alloc.Length1)
    requires Nonneg(cost) && Nonneg(Cells(alloc))
    modifies alloc
    ensures IsDescentRun(cost, alloc.Length0, alloc.Length1, trace, moves) && |moves| == applied
    ensures trace[0] == old(Cells(alloc)) && trace[applied] == Cells(alloc)
    ensures forall k :: 0 <= k < applied ==> Cost(cost, trace[k + 1]) < Cost(cost, trace[k])
    ensures LocallyOptimal(cost, Cells(alloc))
    ensures Nonneg(Cells(alloc))
    ensures forall i :: 0 <= i < alloc.Length0 ==> RowSum(Cells(alloc), i) == old(RowSum(Cells(alloc), i))
    ensures forall j :: 0 <= j < alloc.Length1 ==> ColSum(Cells(alloc), j) == old(ColSum(Cells(alloc), j))
    ensures Cost(cost, Cells(alloc)) + applied <= old(Cost(cost, Cells(alloc)))
    ensures old(LocallyOptimal(cost, Cells(alloc))) ==> applied == 0 && Cells(alloc) == old(Cells(alloc))
  {
    var m, n := alloc.Length0, alloc.Length1;
    applied, trace, moves := DescentLoop(cost, alloc);
    DescentRunPrefix(cost, m, n, trace, moves, applied);
    DescentRunLowersCost(cost, m, n, trace, moves);
    if applied > 0 {
      FirstPassNotOptimal(cost, m, n, trace, moves);
    }
  }

}
