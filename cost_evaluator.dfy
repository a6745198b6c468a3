/** Total transportation cost of an allocation: the sum over all cells of
    unit cost times allocated amount (total_biaya). */
module CostEvaluator {
  import opened Matrices

  /** The products c[j] * a[j] of one row. */
  function Weighted(c: seq<int>, a: seq<int>): seq<int>
    requires |c| == |a|
  {
    seq(|a|, j requires 0 <= j < |a| => c[j] * a[j])
  }

  /** The cost of each row of the allocation g. */
  function RowCosts(cost: Matrix, g: Matrix): seq<int>
    requires SameShape(cost, g)
  {
    seq(|g|, i requires 0 <= i < |g| => Sum(Weighted(cost[i], g[i])))
  }

  function Cost(cost: Matrix, g: Matrix): int
    requires SameShape(cost, g)
  {
    Sum(RowCosts(cost, g))
  }

  /** total_biaya: accumulates cost[i][j] * alloc[i][j] row by row, column by column. */
  method TotalCost(cost: Matrix, alloc: array2<int>) returns (tot: int)
    requires IsGrid(cost, alloc.Length0, alloc.Length1)
    ensures tot == Cost(cost, Cells(alloc))
  {
    ghost var g := Cells(alloc);
    ghost var rows := RowCosts(cost, g);
    tot := 0;
    for i := 0 to alloc.Length0
      invariant tot == Sum(rows[..i])
    {
      ghost var w := Weighted(cost[i], g[i]);
      ghost var before := tot;
      for j := 0 to alloc.Length1
        invariant tot == before + Sum(w[..j])
      {
        SumPrefix(w, j);
        tot := tot + cost[i][j] * alloc[i, j];
      }
      assert w[..alloc.Length1] == w;
      SumPrefix(rows, i);
    }
    assert rows[..alloc.Length0] == rows;
  }

  /** With nonnegative unit costs and amounts the total cost is nonnegative. */
  lemma {:induction false} CostNonneg(cost: Matrix, g: Matrix)
    requires SameShape(cost, g) && Nonneg(cost) && Nonneg(g)
    ensures Cost(cost, g) >= 0
  {
    var rows := RowCosts(cost, g);
    forall i | 0 <= i < |g|
      ensures rows[i] >= 0
    {
      var w := Weighted(cost[i], g[i]);
      forall j | 0 <= j < |w|
        ensures w[j] >= 0
      {
        assert cost[i][j] >= 0 && g[i][j] >= 0;
      }
      SumNonneg(w);
    }
    SumNonneg(rows);
  }

  /** Adding d to cell (i, j) changes the total cost by exactly cost[i][j] * d. */
  lemma AddCost(cost: Matrix, g: Matrix, i: nat, j: nat, d: int)
    requires SameShape(cost, g) && i < |g| && j < |g[i]|
    ensures SameShape(cost, Add(g, i, j, d))
    ensures Cost(cost, Add(g, i, j, d)) == Cost(cost, g) + cost[i][j] * d
  {
    var h := Add(g, i, j, d);
    var w := Weighted(cost[i], g[i]);
    var v := cost[i][j] * (g[i][j] + d);
    assert v == w[j] + cost[i][j] * d;
    assert Weighted(cost[i], h[i]) == w[j := v];
    SumUpdate(w, j, v);
    assert RowCosts(cost, h) == RowCosts(cost, g)[i := Sum(w[j := v])];
    SumUpdate(RowCosts(cost, g), i, Sum(w[j := v]));
  }

}
