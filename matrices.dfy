/** Integer grids as values: sums over sequences, rows and columns, the effect
    of adding an amount to one cell, and the value held by a two-dimensional array. */
module Matrices {

  /** A grid stored row by row: g[i][j] is the cell in row i and column j. */
  type Matrix = seq<seq<int>>

  predicate IsGrid(g: Matrix, m: nat, n: nat) {
    |g| == m && forall i :: 0 <= i < m ==> |g[i]| == n
  }

  /** Two grids with the same rows of the same lengths (a cost grid and an allocation). */
  predicate SameShape(a: Matrix, b: Matrix) {
    |a| == |b| && forall i :: 0 <= i < |a| ==> |a[i]| == |b[i]|
  }

  predicate Nonneg(g: Matrix) {
    forall i, j :: 0 <= i < |g| && 0 <= j < |g[i]| ==> g[i][j] >= 0
  }

  function Sum(s: seq<int>): int {
    if s == [] then 0 else Sum(s[..|s| - 1]) + s[|s| - 1]
  }

  function RowSum(g: Matrix, i: nat): int
    requires i < |g|
  {
    Sum(g[i])
  }

  predicate HasColumn(g: Matrix, j: nat) {
    forall i :: 0 <= i < |g| ==> j < |g[i]|
  }

  function Column(g: Matrix, j: nat): seq<int>
    requires HasColumn(g, j)
  {
    seq(|g|, i requires 0 <= i < |g| => g[i][j])
  }

  function ColSum(g: Matrix, j: nat): int
    requires HasColumn(g, j)
  {
    Sum(Column(g, j))
  }

  /** The row totals and the column totals of an m-by-n grid, as sequences. */
  function RowSums(g: Matrix): seq<int> {
    seq(|g|, i requires 0 <= i < |g| => RowSum(g, i))
  }

  function ColSums(g: Matrix, n: nat): seq<int>
    requires IsGrid(g, |g|, n)
  {
    seq(n, j requires 0 <= j < n => ColSum(g, j))
  }

  /** The grid g with d added to the cell (i, j). */
  function Add(g: Matrix, i: nat, j: nat, d: int): (r: Matrix)
    requires i < |g| && j < |g[i]|
    ensures SameShape(r, g)
  {
    g[i := g[i][j := g[i][j] + d]]
  }

  /** The value held by a two-dimensional array, row by row. */
  ghost function Cells(a: array2<int>): (g: Matrix)
    reads a
    ensures IsGrid(g, a.Length0, a.Length1)
    ensures forall i, j :: 0 <= i < a.Length0 && 0 <= j < a.Length1 ==> g[i][j] == a[i, j]
  {
    seq(a.Length0, i requires 0 <= i < a.Length0 reads a =>
      seq(a.Length1, j requires 0 <= j < a.Length1 reads a => a[i, j]))
  }

  // ---------------------------------------------------------------- sums

  lemma {:induction false} SumAppend(s: seq<int>, x: int)
    ensures Sum(s + [x]) == Sum(s) + x
  {
    assert (s + [x])[..|s|] == s;
  }

  lemma {:induction false} SumPrefix(s: seq<int>, k: nat)
    requires k < |s|
    ensures Sum(s[..k + 1]) == Sum(s[..k]) + s[k]
  {
    assert s[..k + 1] == s[..k] + [s[k]];
    SumAppend(s[..k], s[k]);
  }

  /** Replacing one element changes the sum by exactly the difference. */
  lemma {:induction false} SumUpdate(s: seq<int>, k: nat, v: int)
    requires k < |s|
    ensures Sum(s[k := v]) == Sum(s) - s[k] + v
  {
    var t := s[k := v];
    var last := |s| - 1;
    if k == last {
      assert t[..last] == s[..last];
    } else {
      assert t[..last] == s[..last][k := v];
      SumUpdate(s[..last], k, v);
    }
  }

  lemma {:induction false} SumNonneg(s: seq<int>)
    requires forall k :: 0 <= k < |s| ==> s[k] >= 0
    ensures Sum(s) >= 0
  {
    if s != [] {
      SumNonneg(s[..|s| - 1]);
    }
  }

  /** A sequence that is zero everywhere except at k sums to its k-th element. */
  lemma {:induction false} SumSingle(s: seq<int>, k: nat)
    requires k < |s|
    requires forall i :: 0 <= i < |s| && i != k ==> s[i] == 0
    ensures Sum(s) == s[k]
  {
    var last := |s| - 1;
    if k == last {
      SumZeros(s[..last]);
    } else {
      SumSingle(s[..last], k);
    }
  }

  lemma {:induction false} SumZeros(s: seq<int>)
    requires forall i :: 0 <= i < |s| ==> s[i] == 0
    ensures Sum(s) == 0
  {
    if s != [] {
      SumZeros(s[..|s| - 1]);
    }
  }

  /** A sequence with positive sum has a positive element. */
  lemma {:induction false} SumPositiveHasPositive(s: seq<int>)
    requires Sum(s) > 0
    ensures exists k :: 0 <= k < |s| && s[k] > 0
  {
    var last := |s| - 1;
    if s[last] <= 0 {
      SumPositiveHasPositive(s[..last]);
      var k :| 0 <= k < last && s[..last][k] > 0;
      assert s[k] > 0;
    }
  }

  /** Elementwise a <= b gives Sum(a) <= Sum(b), with equality only when a == b. */
  lemma {:induction false} SumMonotone(a: seq<int>, b: seq<int>)
    requires |a| == |b|
    requires forall k :: 0 <= k < |a| ==> a[k] <= b[k]
    ensures Sum(a) <= Sum(b)
    ensures Sum(a) == Sum(b) ==> a == b
  {
    if a != [] {
      var last := |a| - 1;
      SumMonotone(a[..last], b[..last]);
      if Sum(a) == Sum(b) {
        assert a[..last] == b[..last];
        assert a == a[..last] + [a[last]] && b == b[..last] + [b[last]];
      }
    }
  }

  function Plus(a: seq<int>, b: seq<int>): seq<int>
    requires |a| == |b|
  {
    seq(|a|, k requires 0 <= k < |a| => a[k] + b[k])
  }

  lemma {:induction false} SumPlus(a: seq<int>, b: seq<int>)
    requires |a| == |b|
    ensures Sum(Plus(a, b)) == Sum(a) + Sum(b)
  {
    if a != [] {
      var last := |a| - 1;
      assert Plus(a, b)[..last] == Plus(a[..last], b[..last]);
      SumPlus(a[..last], b[..last]);
    }
  }

  // ---------------------------------------------------------------- grids

  lemma GridEq(a: Matrix, b: Matrix, m: nat, n: nat)
    requires IsGrid(a, m, n) && IsGrid(b, m, n)
    requires forall i, j :: 0 <= i < m && 0 <= j < n ==> a[i][j] == b[i][j]
    ensures a == b
  {
    forall i | 0 <= i < m
      ensures a[i] == b[i]
    {
    }
  }

  /** Every cell counted once by rows is counted once by columns:
      the sum of the row totals equals the sum of the column totals. */
  lemma {:induction false} RowsAndColumnsSameTotal(g: Matrix, n: nat)
    requires IsGrid(g, |g|, n)
    ensures Sum(RowSums(g)) == Sum(ColSums(g, n))
  {
    if g == [] {
      SumZeros(ColSums(g, n));
    } else {
      var last := |g| - 1;
      var h := g[..last];
      RowsAndColumnsSameTotal(h, n);
      assert RowSums(g) == RowSums(h) + [Sum(g[last])];
      SumAppend(RowSums(h), Sum(g[last]));
      forall j | 0 <= j < n
        ensures ColSums(g, n)[j] == Plus(ColSums(h, n), g[last])[j]
      {
        assert Column(g, j) == Column(h, j) + [g[last][j]];
        SumAppend(Column(h, j), g[last][j]);
      }
      assert ColSums(g, n) == Plus(ColSums(h, n), g[last]);
      SumPlus(ColSums(h, n), g[last]);
    }
  }

  /** Adding d to cell (i, j) adds d to row i and to column j and changes no other total. */
  lemma AddSums(g: Matrix, m: nat, n: nat, i: nat, j: nat, d: int)
    requires IsGrid(g, m, n) && i < m && j < n
    ensures IsGrid(Add(g, i, j, d), m, n)
    ensures forall r :: 0 <= r < m ==>
      RowSum(Add(g, i, j, d), r) == RowSum(g, r) + (if r == i then d else 0)
    ensures forall c :: 0 <= c < n ==>
      ColSum(Add(g, i, j, d), c) == ColSum(g, c) + (if c == j then d else 0)
  {
    var h := Add(g, i, j, d);
    SumUpdate(g[i], j, g[i][j] + d);
    forall c | 0 <= c < n
      ensures ColSum(h, c) == ColSum(g, c) + (if c == j then d else 0)
    {
      if c == j {
        assert Column(h, c) == Column(g, c)[i := g[i][j] + d];
        SumUpdate(Column(g, c), i, g[i][j] + d);
      } else {
        assert Column(h, c) == Column(g, c);
      }
    }
  }

}
