/** Feasibility repair (make_feasible_ssm). Each column's demand is first placed on its
    cheapest row; then, while some row holds more than its supply, one transfer per
    iteration moves an amount inside a column from an over-supplied row to the cheapest
    row that still has room. Column totals never change. */
module FeasibilityEngine {
  import opened Wrappers
  import opened Matrices

  /** The iteration cap of the repair loop (MAX_FEAS_ITERS). */
  const MaxFeasIters: nat := 2000

  /** How a row's current total compares with its supply (ER, satisfied, not satisfied). */
  datatype Status = OverSupplied | Satisfied | NotSatisfied

  /** How the repair loop ended: no over-supplied row left, the iteration cap was reached,
      or no conflicting column had a row to receive an amount. */
  datatype Outcome = Feasible | CapExceeded | Stuck

  function StatusOf(total: int, supply: int): Status {
    if total > supply then OverSupplied else if total == supply then Satisfied else NotSatisfied
  }

  /** jumlah_ER: the number of over-supplied rows. */
  function CountOver(status: seq<Status>): nat {
    if status == [] then 0
    else CountOver(status[..|status| - 1]) + (if status[|status| - 1] == OverSupplied then 1 else 0)
  }

  lemma {:induction false} CountOverZero(status: seq<Status>)
    ensures CountOver(status) == 0 <==> forall i :: 0 <= i < |status| ==> status[i] != OverSupplied
  {
    if status != [] {
      var last := |status| - 1;
      CountOverZero(status[..last]);
      assert forall i :: 0 <= i < last ==> status[..last][i] == status[i];
    }
  }

  // ---------------------------------------------------------------- initial allocation

  /** Row r has the least unit cost in column j, and no earlier row has the same cost. */
  predicate IsCheapestRow(cost: Matrix, j: nat, r: nat)
    requires HasColumn(cost, j)
  {
    r < |cost| &&
    (forall i :: 0 <= i < |cost| ==> cost[r][j] <= cost[i][j]) &&
    (forall i :: 0 <= i < r ==> cost[i][j] > cost[r][j])
  }

  /** rmin of the initialisation: a strict comparison keeps the first minimum. */
  method CheapestRow(cost: Matrix, j: nat) returns (rmin: nat)
    requires |cost| >= 1 && HasColumn(cost, j)
    ensures IsCheapestRow(cost, j, rmin)
  {
    rmin := 0;
    for i := 1 to |cost|
      invariant rmin < i
      invariant forall k :: 0 <= k < i ==> cost[rmin][j] <= cost[k][j]
      invariant forall k :: 0 <= k < rmin ==> cost[k][j] > cost[rmin][j]
    {
      if cost[rmin][j] > cost[i][j] {
        rmin := i;
      }
    }
  }

  /** A column has only one cheapest row in this sense. */
  lemma CheapestRowUnique(cost: Matrix, j: nat, r: nat, r': nat)
    requires HasColumn(cost, j) && IsCheapestRow(cost, j, r) && IsCheapestRow(cost, j, r')
    ensures r == r'
  {
    assert cost[r][j] == cost[r'][j];
  }

  /** The allocation the initialisation builds: each column's demand on its cheapest row. */
  function InitialGrid(cost: Matrix, demand: seq<int>, m: nat, n: nat): Matrix
    requires IsGrid(cost, m, n) && |demand| == n
  {
    seq(m, i requires 0 <= i < m =>
      seq(n, j requires 0 <= j < n => if IsCheapestRow(cost, j, i) then demand[j] else 0))
  }

  /** Zero-fills the allocation, then puts each column's whole demand on its cheapest row. */
  method InitialAllocation(cost: Matrix, demand: seq<int>, alloc: array2<int>)
    requires alloc.Length0 >= 1 || alloc.Length1 == 0
    requires IsGrid(cost, alloc.Length0, alloc.Length1)
    requires |demand| == alloc.Length1
    modifies alloc
    ensures forall i, j :: 0 <= i < alloc.Length0 && 0 <= j < alloc.Length1 ==>
      alloc[i, j] == if IsCheapestRow(cost, j, i) then demand[j] else 0
    ensures Cells(alloc) == InitialGrid(cost, demand, alloc.Length0, alloc.Length1)
    ensures forall j :: 0 <= j < alloc.Length1 ==> ColSum(Cells(alloc), j) == demand[j]
  {
    var m, n := alloc.Length0, alloc.Length1;
    for i := 0 to m
      invariant forall a, b :: 0 <= a < i && 0 <= b < n ==> alloc[a, b] == 0
    {
      for j := 0 to n
        invariant forall a, b :: 0 <= a < m && 0 <= b < n && (a < i || (a == i && b < j)) ==> alloc[a, b] == 0
      {
        alloc[i, j] := 0;
      }
    }
    ghost var chosen: seq<nat> := [];
    for j := 0 to n
      invariant |chosen| == j
      invariant forall b :: 0 <= b < j ==> IsCheapestRow(cost, b, chosen[b])
      invariant forall a, b :: 0 <= a < m && 0 <= b < n ==>
        alloc[a, b] == if b < j && IsCheapestRow(cost, b, a) then demand[b] else 0
    {
      var rmin := CheapestRow(cost, j);
      forall a | 0 <= a < m
        ensures IsCheapestRow(cost, j, a) <==> a == rmin
      {
        if IsCheapestRow(cost, j, a) {
          CheapestRowUnique(cost, j, a, rmin);
        }
      }
      alloc[rmin, j] := demand[j];
      chosen := chosen + [rmin];
    }
    forall j | 0 <= j < n
      ensures ColSum(Cells(alloc), j) == demand[j]
    {
      forall i | 0 <= i < m && i != chosen[j]
        ensures !IsCheapestRow(cost, j, i)
      {
        if IsCheapestRow(cost, j, i) {
          CheapestRowUnique(cost, j, i, chosen[j]);
        }
      }
      SumSingle(Column(Cells(alloc), j), chosen[j]);
    }
    GridEq(Cells(alloc), InitialGrid(cost, demand, m, n), m, n);
  }

  // ---------------------------------------------------------------- one repair iteration

  /** Row totals, their status and the number of over-supplied rows. */
  method ClassifyRows(alloc: array2<int>, supply: seq<int>)
    returns (total: seq<int>, status: seq<Status>, erCount: nat)
    requires |supply| == alloc.Length0
    ensures |total| == |status| == alloc.Length0
    ensures forall i :: 0 <= i < alloc.Length0 ==>
      total[i] == RowSum(Cells(alloc), i) && status[i] == StatusOf(total[i], supply[i])
    ensures erCount == CountOver(status)
  {
    ghost var g := Cells(alloc);
    total, status, erCount := [], [], 0;
    for i := 0 to alloc.Length0
      invariant |total| == |status| == i
      invariant forall k :: 0 <= k < i ==> total[k] == RowSum(g, k) && status[k] == StatusOf(total[k], supply[k])
      invariant erCount == CountOver(status)
    {
      var t := 0;
      for j := 0 to alloc.Length1
        invariant t == Sum(g[i][..j])
      {
        SumPrefix(g[i], j);
        t := t + alloc[i, j];
      }
      assert g[i][..alloc.Length1] == g[i];
      var st;
      if t > supply[i] {
        st := OverSupplied;
        erCount := erCount + 1;
      } else if t == supply[i] {
        st := Satisfied;
      } else {
        st := NotSatisfied;
      }
      assert (status + [st])[..i] == status;
      total, status := total + [t], status + [st];
    }
  }

  /** Row r is the lowest-index over-supplied row with a positive amount in column j. */
  predicate IsFirstConflict(g: Matrix, status: seq<Status>, j: nat, r: nat)
    requires |status| == |g| && HasColumn(g, j)
  {
    r < |g| && g[r][j] > 0 && status[r] == OverSupplied &&
    forall i :: 0 <= i < r ==> !(g[i][j] > 0 && status[i] == OverSupplied)
  }

  /** flc of column j: its first conflicting row, or None when the column is not conflicting. */
  predicate FirstConflictSpec(g: Matrix, status: seq<Status>, j: nat, flc: Option<nat>)
    requires |status| == |g| && HasColumn(g, j)
  {
    match flc
    case None => forall i :: 0 <= i < |g| ==> !(g[i][j] > 0 && status[i] == OverSupplied)
    case Some(r) => IsFirstConflict(g, status, j, r)
  }

  /** The conflict flags and flc of every column (konflik and flc share one condition). */
  method FirstConflictRows(alloc: array2<int>, status: seq<Status>) returns (flc: seq<Option<nat>>)
    requires |status| == alloc.Length0
    ensures |flc| == alloc.Length1
    ensures forall j :: 0 <= j < alloc.Length1 ==> FirstConflictSpec(Cells(alloc), status, j, flc[j])
  {
    ghost var g := Cells(alloc);
    flc := [];
    for j := 0 to alloc.Length1
      invariant |flc| == j
      invariant forall k :: 0 <= k < j ==> FirstConflictSpec(g, status, k, flc[k])
    {
      var found: Option<nat> := None;
      for i := 0 to alloc.Length0
        invariant found.None?
        invariant forall k :: 0 <= k < i ==> !(g[k][j] > 0 && status[k] == OverSupplied)
      {
        if alloc[i, j] > 0 && status[i] == OverSupplied {
          found := Some(i);
          break;
        }
      }
      flc := flc + [found];
    }
  }

  /** Row r is a cheapest not-satisfied row in column j, the lowest-index one among equals. */
  predicate IsCheapestOpen(cost: Matrix, status: seq<Status>, j: nat, r: nat, bound: nat)
    requires bound <= |status| == |cost| && HasColumn(cost, j)
  {
    r < bound && status[r] == NotSatisfied &&
    (forall i :: 0 <= i < bound && status[i] == NotSatisfied ==> cost[r][j] <= cost[i][j]) &&
    (forall i :: 0 <= i < r && status[i] == NotSatisfied ==> cost[i][j] > cost[r][j])
  }

  /** slc of column j: chosen only for a conflicting column, None when no row is not satisfied. */
  predicate SecondCandidateSpec(cost: Matrix, status: seq<Status>, j: nat, flc: Option<nat>, slc: Option<nat>)
    requires |status| == |cost| && HasColumn(cost, j)
  {
    if flc.None? then slc.None?
    else match slc
      case None => forall i :: 0 <= i < |cost| ==> status[i] != NotSatisfied
      case Some(r) => IsCheapestOpen(cost, status, j, r, |cost|)
  }

  /** slc of every column. The source's INT_MAX start value becomes "no candidate yet". */
  method SecondCandidates(cost: Matrix, status: seq<Status>, flc: seq<Option<nat>>)
    returns (slc: seq<Option<nat>>)
    requires |status| == |cost| && IsGrid(cost, |cost|, |flc|)
    ensures |slc| == |flc|
    ensures forall j :: 0 <= j < |flc| ==> SecondCandidateSpec(cost, status, j, flc[j], slc[j])
  {
    slc := [];
    for j := 0 to |flc|
      invariant |slc| == j
      invariant forall k :: 0 <= k < j ==> SecondCandidateSpec(cost, status, k, flc[k], slc[k])
    {
      var candidate: Option<nat> := None;
      if flc[j].Some? {
        for i := 0 to |cost|
          invariant candidate.None? ==> forall k :: 0 <= k < i ==> status[k] != NotSatisfied
          invariant candidate.Some? ==> IsCheapestOpen(cost, status, j, candidate.value, i)
        {
          if status[i] == NotSatisfied && (candidate.None? || cost[i][j] < cost[candidate.value][j]) {
            candidate := Some(i);
          }
        }
      }
      slc := slc + [candidate];
    }
  }

  /** Every row index stored in rows is below m. */
  predicate RowsBelow(rows: seq<Option<nat>>, m: nat) {
    forall j :: 0 <= j < |rows| && rows[j].Some? ==> rows[j].value < m
  }

  /** Column j can be selected: it is conflicting and has an slc. */
  predicate Eligible(flc: seq<Option<nat>>, slc: seq<Option<nat>>, j: nat)
    requires j < |flc| == |slc|
  {
    flc[j].Some? && slc[j].Some?
  }

  /** The shape facts the selection works under. */
  predicate SelectionInputs(cost: Matrix, g: Matrix, flc: seq<Option<nat>>, slc: seq<Option<nat>>) {
    IsGrid(cost, |g|, |flc|) && IsGrid(g, |g|, |flc|) && |slc| == |flc| &&
    RowsBelow(flc, |g|) && RowsBelow(slc, |g|)
  }

  /** diff of an eligible column: unit cost at slc minus unit cost at flc. */
  function Diff(cost: Matrix, g: Matrix, flc: seq<Option<nat>>, slc: seq<Option<nat>>, j: nat): int
    requires SelectionInputs(cost, g, flc, slc) && j < |flc| && Eligible(flc, slc, j)
  {
    cost[slc[j].value][j] - cost[flc[j].value][j]
  }

  /** Column j is preferred to column k: smaller diff, or equal diff and a larger amount at its flc. */
  predicate Preferred(cost: Matrix, g: Matrix, flc: seq<Option<nat>>, slc: seq<Option<nat>>, j: nat, k: nat)
    requires SelectionInputs(cost, g, flc, slc) && j < |flc| && k < |flc|
    requires Eligible(flc, slc, j) && Eligible(flc, slc, k)
  {
    Diff(cost, g, flc, slc, j) < Diff(cost, g, flc, slc, k) ||
    (Diff(cost, g, flc, slc, j) == Diff(cost, g, flc, slc, k) && g[flc[j].value][j] > g[flc[k].value][k])
  }

  /** Column c is the selected one among columns below bound: eligible, no eligible column is
      preferred to it, and it is preferred to every eligible column before it. */
  predicate IsSelected(cost: Matrix, g: Matrix, flc: seq<Option<nat>>, slc: seq<Option<nat>>, c: nat, bound: nat)
    requires SelectionInputs(cost, g, flc, slc) && bound <= |flc|
  {
    c < bound && Eligible(flc, slc, c) &&
    (forall k :: 0 <= k < bound && Eligible(flc, slc, k) ==> !Preferred(cost, g, flc, slc, k, c)) &&
    (forall k :: 0 <= k < c && Eligible(flc, slc, k) ==> Preferred(cost, g, flc, slc, c, k))
  }

  /** coorselisih: the eligible column with the least diff, ties to the larger amount at flc,
      then to the earlier column. */
  method SelectColumn(cost: Matrix, alloc: array2<int>, flc: seq<Option<nat>>, slc: seq<Option<nat>>)
    returns (col: Option<nat>)
    requires SelectionInputs(cost, Cells(alloc), flc, slc) && |flc| == alloc.Length1
    ensures col.None? <==> forall j :: 0 <= j < |flc| ==> !Eligible(flc, slc, j)
    ensures col.Some? ==> IsSelected(cost, Cells(alloc), flc, slc, col.value, |flc|)
  {
    ghost var g := Cells(alloc);
    col := None;
    for j := 0 to |flc|
      invariant col.None? ==> forall k :: 0 <= k < j ==> !Eligible(flc, slc, k)
      invariant col.Some? ==> IsSelected(cost, g, flc, slc, col.value, j)
    {
      if flc[j].Some? && slc[j].Some? {
        var diff := cost[slc[j].value][j] - cost[flc[j].value][j];
        if col.None? {
          col := Some(j);
        } else {
          var c := col.value;
          var bestDiff := cost[slc[c].value][c] - cost[flc[c].value][c];
          if diff < bestDiff {
            col := Some(j);
          } else if diff == bestDiff && alloc[flc[j].value, j] > alloc[flc[c].value, c] {
            col := Some(j);
          }
        }
      }
    }
  }

  // ---------------------------------------------------------------- the transfer

  /** The amount moved from the flc row to the slc row: the five cases of the transfer rule.
      For an over-supplied source and a not-satisfied destination it is positive, at most the
      source cell, and it either leaves the source at or above its supply or the destination
      at or below its supply. */
  function MoveAmount(supplyF: int, supplyS: int, totalF: int, totalS: int, available: int, erCount: nat)
    : (move: int)
    ensures totalF > supplyF && totalS < supplyS && available > 0 ==>
      0 < move <= available && (move <= totalF - supplyF || move <= supplyS - totalS)
    ensures supplyF == supplyS && totalF > supplyF ==>
      move == if totalF - supplyF > available then available else totalF - supplyF
  {
    if supplyF == supplyS then
      var excess := totalF - supplyF;
      var move := if excess < 0 then available else excess;
      if move > available then available else move
    else if erCount >= 2 then
      if supplyF > supplyS then
        var excess := totalF - supplyF;
        if excess > available then available else excess
      else
        var slack := supplyS - totalS;
        if slack >= available then available else slack
    else
      if supplyF < supplyS then
        var excess := totalF - supplyF;
        if excess > available then available else excess
      else
        var slack := supplyS - totalS;
        if slack >= available then available else slack
  }

  /** The grid after moving an amount from row from to row to inside column col. */
  function MoveWithinColumn(g: Matrix, col: nat, from: nat, to: nat, move: int): Matrix
    requires from < |g| && to < |g| && col < |g[from]| && col < |g[to]|
  {
    Add(Add(g, from, col, -move), to, col, move)
  }

  /** A move inside a column changes exactly its two cells, keeps every column total, moves
      the amount between the two row totals, and keeps cells nonnegative when the amount is
      at most what the source cell holds. */
  lemma MoveWithinColumnEffect(g: Matrix, m: nat, n: nat, col: nat, from: nat, to: nat, move: int)
    requires IsGrid(g, m, n) && from < m && to < m && col < n && from != to
    ensures IsGrid(MoveWithinColumn(g, col, from, to, move), m, n)
    ensures forall i, j :: 0 <= i < m && 0 <= j < n ==>
      MoveWithinColumn(g, col, from, to, move)[i][j] ==
        g[i][j] + (if j != col then 0 else if i == from then -move else if i == to then move else 0)
    ensures forall j :: 0 <= j < n ==> ColSum(MoveWithinColumn(g, col, from, to, move), j) == ColSum(g, j)
    ensures RowSum(MoveWithinColumn(g, col, from, to, move), from) == RowSum(g, from) - move
    ensures RowSum(MoveWithinColumn(g, col, from, to, move), to) == RowSum(g, to) + move
    ensures forall i :: 0 <= i < m && i != from && i != to ==>
      RowSum(MoveWithinColumn(g, col, from, to, move), i) == RowSum(g, i)
    ensures Nonneg(g) && 0 <= move <= g[from][col] ==> Nonneg(MoveWithinColumn(g, col, from, to, move))
  {
    var g1 := Add(g, from, col, -move);
    AddSums(g, m, n, from, col, -move);
    AddSums(g1, m, n, to, col, move);
  }

  /** The transfer block of one repair iteration: computes the amount and moves it. */
  method Transfer(alloc: array2<int>, supply: seq<int>, total: seq<int>, erCount: nat,
                  col: nat, from: nat, to: nat) returns (move: int)
    requires |supply| == |total| == alloc.Length0
    requires from < alloc.Length0 && to < alloc.Length0 && col < alloc.Length1
    modifies alloc
    ensures move == MoveAmount(supply[from], supply[to], total[from], total[to], old(alloc[from, col]), erCount)
    ensures Cells(alloc) == MoveWithinColumn(old(Cells(alloc)), col, from, to, move)
  {
    ghost var g := Cells(alloc);
    move := MoveAmount(supply[from], supply[to], total[from], total[to], alloc[from, col], erCount);
    alloc[from, col] := alloc[from, col] - move;
    alloc[to, col] := alloc[to, col] + move;
    GridEq(Cells(alloc), MoveWithinColumn(g, col, from, to, move), alloc.Length0, alloc.Length1);
  }

  // ---------------------------------------------------------------- what the loop's exits mean

  /** With equal supply and demand totals and every column total equal to its demand, row
      totals that are all at most (or all at least) their supplies are all exactly their supplies. */
  lemma {:induction false} BalancedRowsExact(g: Matrix, n: nat, supply: seq<int>, demand: seq<int>)
    requires IsGrid(g, |g|, n) && |supply| == |g| && |demand| == n
    requires forall j :: 0 <= j < n ==> ColSum(g, j) == demand[j]
    requires Sum(supply) == Sum(demand)
    requires (forall i :: 0 <= i < |g| ==> RowSum(g, i) <= supply[i]) ||
             (forall i :: 0 <= i < |g| ==> RowSum(g, i) >= supply[i])
    ensures forall i :: 0 <= i < |g| ==> RowSum(g, i) == supply[i]
  {
    assert ColSums(g, n) == demand;
    RowsAndColumnsSameTotal(g, n);
    if forall i :: 0 <= i < |g| ==> RowSum(g, i) <= supply[i] {
      SumMonotone(RowSums(g), supply);
    } else {
      SumMonotone(supply, RowSums(g));
    }
    assert RowSums(g) == supply;
  }

  /** When some row is over-supplied but no column can be selected, every row already
      holds at least its supply: there is no row left to receive an amount. */
  lemma StuckMeansNoRoom(cost: Matrix, g: Matrix, supply: seq<int>, status: seq<Status>,
                         flc: seq<Option<nat>>, slc: seq<Option<nat>>, over: nat)
    requires IsGrid(g, |g|, |flc|) && IsGrid(cost, |g|, |flc|)
    requires |supply| == |status| == |g| && |slc| == |flc| && Nonneg(g)
    requires forall i :: 0 <= i < |supply| ==> supply[i] >= 0
    requires forall i :: 0 <= i < |g| ==> status[i] == StatusOf(RowSum(g, i), supply[i])
    requires forall j :: 0 <= j < |flc| ==> FirstConflictSpec(g, status, j, flc[j])
    requires forall j :: 0 <= j < |flc| ==> SecondCandidateSpec(cost, status, j, flc[j], slc[j])
    requires forall j :: 0 <= j < |flc| ==> !Eligible(flc, slc, j)
    requires over < |g| && status[over] == OverSupplied
    ensures forall i :: 0 <= i < |g| ==> RowSum(g, i) >= supply[i]
  {
    SumPositiveHasPositive(g[over]);
    var k :| 0 <= k < |g[over]| && g[over][k] > 0;
    assert flc[k].Some?;
    assert !Eligible(flc, slc, k);
  }

  /** The selected column names an over-supplied row with a positive amount in it and a
      different, not-satisfied row: the transfer rule then moves a positive amount that
      the source cell can give. */
  lemma SelectedTransfer(cost: Matrix, g: Matrix, supply: seq<int>, total: seq<int>, status: seq<Status>,
                         erCount: nat, flc: seq<Option<nat>>, slc: seq<Option<nat>>, c: nat)
    requires IsGrid(g, |g|, |flc|) && IsGrid(cost, |g|, |flc|)
    requires |supply| == |total| == |status| == |g| && |slc| == |flc|
    requires forall i :: 0 <= i < |g| ==> status[i] == StatusOf(total[i], supply[i])
    requires forall j :: 0 <= j < |flc| ==> FirstConflictSpec(g, status, j, flc[j])
    requires forall j :: 0 <= j < |flc| ==> SecondCandidateSpec(cost, status, j, flc[j], slc[j])
    requires c < |flc| && Eligible(flc, slc, c)
    ensures flc[c].value < |g| && slc[c].value < |g| && flc[c].value != slc[c].value
    ensures var move := MoveAmount(supply[flc[c].value], supply[slc[c].value], total[flc[c].value],
                                   total[slc[c].value], g[flc[c].value][c], erCount);
      0 < move <= g[flc[c].value][c]
  {
    var f, t := flc[c].value, slc[c].value;
    assert FirstConflictSpec(g, status, c, flc[c]) && IsFirstConflict(g, status, c, f);
    assert SecondCandidateSpec(cost, status, c, flc[c], slc[c]) && IsCheapestOpen(cost, status, c, t, |g|);
    assert status[f] == OverSupplied && status[t] == NotSatisfied;
  }

  /** Every row index chosen as flc or slc is a row of the grid. */
  lemma ChosenRowsBelow(cost: Matrix, g: Matrix, status: seq<Status>, flc: seq<Option<nat>>, slc: seq<Option<nat>>)
    requires IsGrid(g, |g|, |flc|) && IsGrid(cost, |g|, |flc|)
    requires |status| == |g| && |slc| == |flc|
    requires forall j :: 0 <= j < |flc| ==> FirstConflictSpec(g, status, j, flc[j])
    requires forall j :: 0 <= j < |flc| ==> SecondCandidateSpec(cost, status, j, flc[j], slc[j])
    ensures RowsBelow(flc, |g|) && RowsBelow(slc, |g|)
  {
    forall j | 0 <= j < |flc| && flc[j].Some?
      ensures flc[j].value < |g|
    {
      assert FirstConflictSpec(g, status, j, flc[j]);
    }
    forall j | 0 <= j < |slc| && slc[j].Some?
      ensures slc[j].value < |g|
    {
      assert SecondCandidateSpec(cost, status, j, flc[j], slc[j]);
    }
  }

  // ---------------------------------------------------------------- the repair loop

  /** The status of every row of g. */
  function Statuses(g: Matrix, supply: seq<int>): seq<Status>
    requires |supply| == |g|
  {
    seq(|g|, i requires 0 <= i < |g| => StatusOf(RowSum(g, i), supply[i]))
  }

  /** The choices one repair iteration makes: flc and slc of every column, the selected
      column and the amount moved. */
  datatype Step = Step(flc: seq<Option<nat>>, slc: seq<Option<nat>>, col: nat, amount: int)

  /** g' is g after one repair iteration that made the choices in st: some row of g is
      over-supplied, flc and slc are as the iteration defines them, col is the selected
      column, and the amount given by the transfer rule moves from flc to slc in col. */
  ghost predicate IsRepairStep(cost: Matrix, supply: seq<int>, n: nat, g: Matrix, st: Step, g': Matrix)
    requires IsGrid(g, |g|, n) && IsGrid(cost, |g|, n) && |supply| == |g|
  {
    var status := Statuses(g, supply);
    CountOver(status) > 0 &&
    |st.flc| == n && |st.slc| == n &&
    (forall j :: 0 <= j < n ==> FirstConflictSpec(g, status, j, st.flc[j])) &&
    (forall j :: 0 <= j < n ==> SecondCandidateSpec(cost, status, j, st.flc[j], st.slc[j])) &&
    RowsBelow(st.flc, |g|) && RowsBelow(st.slc, |g|) &&
    IsSelected(cost, g, st.flc, st.slc, st.col, n) &&
    var f := st.flc[st.col].value;
    var t := st.slc[st.col].value;
    st.amount == MoveAmount(supply[f], supply[t], RowSum(g, f), RowSum(g, t), g[f][st.col], CountOver(status)) &&
    g' == MoveWithinColumn(g, st.col, f, t, st.amount)
  }

  /** One repair step moves a positive amount, at most what the flc cell holds, between two
      different rows; it keeps every column total and keeps cells nonnegative. */
  lemma RepairStepEffect(cost: Matrix, supply: seq<int>, n: nat, g: Matrix, st: Step, g': Matrix)
    requires IsGrid(g, |g|, n) && IsGrid(cost, |g|, n) && |supply| == |g|
    requires IsRepairStep(cost, supply, n, g, st, g')
    ensures st.flc[st.col].value != st.slc[st.col].value
    ensures 0 < st.amount <= g[st.flc[st.col].value][st.col]
    ensures IsGrid(g', |g|, n)
    ensures forall j :: 0 <= j < n ==> ColSum(g', j) == ColSum(g, j)
    ensures Nonneg(g) ==> Nonneg(g')
  {
    var status := Statuses(g, supply);
    SelectedTransfer(cost, g, supply, RowSums(g), status, CountOver(status), st.flc, st.slc, st.col);
    MoveWithinColumnEffect(g, |g|, n, st.col, st.flc[st.col].value, st.slc[st.col].value, st.amount);
  }

  /** The choices an iteration computes, with the transfer rule's amount moved, form a repair step. */
  lemma SelectedIsRepairStep(cost: Matrix, supply: seq<int>, n: nat, g: Matrix, total: seq<int>,
                             status: seq<Status>, flc: seq<Option<nat>>, slc: seq<Option<nat>>, c: nat, move: int)
    requires IsGrid(g, |g|, n) && IsGrid(cost, |g|, n) && |supply| == |total| == |status| == |g|
    requires forall i :: 0 <= i < |g| ==> total[i] == RowSum(g, i) && status[i] == StatusOf(total[i], supply[i])
    requires CountOver(status) > 0 && |flc| == |slc| == n
    requires forall j :: 0 <= j < n ==> FirstConflictSpec(g, status, j, flc[j])
    requires forall j :: 0 <= j < n ==> SecondCandidateSpec(cost, status, j, flc[j], slc[j])
    requires RowsBelow(flc, |g|) && RowsBelow(slc, |g|) && IsSelected(cost, g, flc, slc, c, n)
    requires move == MoveAmount(supply[flc[c].value], supply[slc[c].value], total[flc[c].value],
                                total[slc[c].value], g[flc[c].value][c], CountOver(status))
    ensures IsRepairStep(cost, supply, n, g, Step(flc, slc, c, move),
                         MoveWithinColumn(g, c, flc[c].value, slc[c].value, move))
  {
    assert status == Statuses(g, supply);
  }

  /** trace is a run of the repair loop: it starts with one grid, and each later grid
      follows from the one before by the repair step recorded in steps. */
  ghost predicate IsRepairRun(cost: Matrix, supply: seq<int>, n: nat, trace: seq<Matrix>, steps: seq<Step>)
    requires IsGrid(cost, |supply|, n)
  {
    |trace| == |steps| + 1 && (forall k :: 0 <= k < |trace| ==> IsGrid(trace[k], |supply|, n)) &&
    forall k {:trigger steps[k]} :: 0 <= k < |steps| ==> IsRepairStep(cost, supply, n, trace[k], steps[k], trace[k + 1])
  }

  /** A run extended by one more repair step is a run with the same first grid. */
  lemma ExtendRun(cost: Matrix, supply: seq<int>, n: nat, trace: seq<Matrix>, steps: seq<Step>, st: Step, g': Matrix)
    requires IsGrid(cost, |supply|, n) && IsRepairRun(cost, supply, n, trace, steps)
    requires IsRepairStep(cost, supply, n, trace[|trace| - 1], st, g')
    ensures IsRepairRun(cost, supply, n, trace + [g'], steps + [st])
    ensures (trace + [g'])[0] == trace[0] && (trace + [g'])[|trace|] == g'
  {
    RepairStepEffect(cost, supply, n, trace[|trace| - 1], st, g');
    assert (trace + [g'])[..|trace|] == trace;
    assert (steps + [st])[..|steps|] == steps;
  }

  /** Along a whole run every column total stays what it was, and nonnegative cells stay nonnegative. */
  lemma {:induction false} RepairRunKeepsColumns(cost: Matrix, supply: seq<int>, n: nat,
                                                 trace: seq<Matrix>, steps: seq<Step>)
    requires IsGrid(cost, |supply|, n) && IsRepairRun(cost, supply, n, trace, steps)
    ensures forall j :: 0 <= j < n ==> ColSum(trace[|trace| - 1], j) == ColSum(trace[0], j)
    ensures Nonneg(trace[0]) ==> Nonneg(trace[|trace| - 1])
    decreases |steps|
  {
    if steps != [] {
      var k := |steps| - 1;
      RepairRunKeepsColumns(cost, supply, n, trace[..k + 1], steps[..k]);
      RepairStepEffect(cost, supply, n, trace[k], steps[k], trace[k + 1]);
    }
  }

  /** The selection and transfer part of one repair iteration, entered while some row is
      over-supplied: flc and slc per column, the chosen column, and the move. With a
      selectable column the grid takes one repair step; without one nothing changes and
      every row already holds at least its supply. */
  method RepairIteration(cost: Matrix, supply: seq<int>, alloc: array2<int>,
                         total: seq<int>, status: seq<Status>, erCount: nat, ghost over: nat)
    returns (col: Option<nat>, move: int, ghost step: Step)
    requires IsGrid(cost, alloc.Length0, alloc.Length1)
    requires |supply| == |total| == |status| == alloc.Length0
    requires forall i :: 0 <= i < |supply| ==> supply[i] >= 0
    requires Nonneg(Cells(alloc))
    requires forall i :: 0 <= i < alloc.Length0 ==>
      total[i] == RowSum(Cells(alloc), i) && status[i] == StatusOf(total[i], supply[i])
    requires erCount == CountOver(status)
    requires over < alloc.Length0 && status[over] == OverSupplied
    modifies alloc
    ensures Nonneg(Cells(alloc))
    ensures forall j :: 0 <= j < alloc.Length1 ==> ColSum(Cells(alloc), j) == old(ColSum(Cells(alloc), j))
    ensures col.Some? ==> step.col == col.value && step.amount == move
    ensures col.Some? ==> IsRepairStep(cost, supply, alloc.Length1, old(Cells(alloc)), step, Cells(alloc))
    ensures col.Some? ==> 0 < move <= old(alloc[step.flc[col.value].value, col.value])
    ensures col.None? ==> Cells(alloc) == old(Cells(alloc))
    ensures col.None? ==> forall i :: 0 <= i < alloc.Length0 ==> RowSum(Cells(alloc), i) >= supply[i]
  {
    var m, n := alloc.Length0, alloc.Length1;
    ghost var g := Cells(alloc);
    var flc := FirstConflictRows(alloc, status);
    var slc := SecondCandidates(cost, status, flc);
    ChosenRowsBelow(cost, g, status, flc, slc);
    col := SelectColumn(cost, alloc, flc, slc);
    if col.None? {
      StuckMeansNoRoom(cost, g, supply, status, flc, slc, over);
      move, step := 0, Step(flc, slc, 0, 0);
      return;
    }
    var c := col.value;
    CountOverZero(status);
    SelectedTransfer(cost, g, supply, total, status, erCount, flc, slc, c);
    var from, to := flc[c].value, slc[c].value;
    ghost var amount := MoveAmount(supply[from], supply[to], total[from], total[to], g[from][c], erCount);
    SelectedIsRepairStep(cost, supply, n, g, total, status, flc, slc, c, amount);
    move := Transfer(alloc, supply, total, erCount, c, from, to);
    MoveWithinColumnEffect(g, m, n, c, from, to, move);
    step := Step(flc, slc, c, move);
  }

  /** One pass of the repair loop's body. It classifies the rows and stops with Feasible
      when none is over-supplied. Otherwise it counts the iteration and stops with
      CapExceeded at the cap; below the cap it runs one repair iteration, stopping with
      Stuck when no column can be selected. Only a transfer changes the grid. */
  method RepairRound(cost: Matrix, supply: seq<int>, demand: seq<int>, alloc: array2<int>, iterations: nat)
    returns (stop: Option<Outcome>, iterations': nat, ghost step: Step)
    requires IsGrid(cost, alloc.Length0, alloc.Length1)
    requires |supply| == alloc.Length0 && |demand| == alloc.Length1
    requires forall i :: 0 <= i < |supply| ==> supply[i] >= 0
    requires Nonneg(Cells(alloc))
    requires forall j :: 0 <= j < alloc.Length1 ==> ColSum(Cells(alloc), j) == demand[j]
    requires iterations < MaxFeasIters
    modifies alloc
    ensures Nonneg(Cells(alloc))
    ensures forall j :: 0 <= j < alloc.Length1 ==> ColSum(Cells(alloc), j) == demand[j]
    ensures iterations' == if stop == Some(Feasible) then iterations else iterations + 1
    ensures stop == Some(CapExceeded) <==> iterations' == MaxFeasIters
    ensures stop.None? ==> IsRepairStep(cost, supply, alloc.Length1, old(Cells(alloc)), step, Cells(alloc))
    ensures stop.Some? ==> Cells(alloc) == old(Cells(alloc))
    ensures stop == Some(Feasible) ==> forall i :: 0 <= i < alloc.Length0 ==> RowSum(Cells(alloc), i) <= supply[i]
    ensures stop == Some(Feasible) && Sum(supply) == Sum(demand) ==>
      forall i :: 0 <= i < alloc.Length0 ==> RowSum(Cells(alloc), i) == supply[i]
    ensures stop.Some? && stop != Some(Feasible) ==>
      exists i :: 0 <= i < alloc.Length0 && RowSum(Cells(alloc), i) > supply[i]
    ensures stop == Some(Stuck) ==> forall i :: 0 <= i < alloc.Length0 ==> RowSum(Cells(alloc), i) >= supply[i]
    ensures Sum(supply) == Sum(demand) ==> stop != Some(Stuck)
  {
    var m, n := alloc.Length0, alloc.Length1;
    ghost var g := Cells(alloc);
    iterations' := iterations;
    step := Step([], [], 0, 0);
    var total, status, erCount := ClassifyRows(alloc, supply);
    CountOverZero(status);
    if erCount == 0 {
      if Sum(supply) == Sum(demand) {
        BalancedRowsExact(g, n, supply, demand);
      }
      return Some(Feasible), iterations', step;
    }
    ghost var over :| 0 <= over < m && status[over] == OverSupplied;
    iterations' := iterations + 1;
    if iterations' >= MaxFeasIters {
      return Some(CapExceeded), iterations', step;
    }
    var col, move;
    col, move, step := RepairIteration(cost, supply, alloc, total, status, erCount, over);
    if col.None? {
      if Sum(supply) == Sum(demand) {
        BalancedRowsExact(g, n, supply, demand);
        assert false;
      }
      return Some(Stuck), iterations', step;
    }
    stop := None;
  }

  /** The repair loop of make_feasible_ssm, run from whatever allocation it is given.
      iterations is the source's itertemp; transfers counts the moves applied, and trace
      holds the grid before and after each transfer. */
  method RepairLoop(cost: Matrix, supply: seq<int>, demand: seq<int>, alloc: array2<int>)
    returns (outcome: Outcome, iterations: nat, transfers: nat, ghost trace: seq<Matrix>, ghost steps: seq<Step>)
    requires IsGrid(cost, alloc.Length0, alloc.Length1)
    requires |supply| == alloc.Length0 && |demand| == alloc.Length1
    requires forall i :: 0 <= i < |supply| ==> supply[i] >= 0
    requires Nonneg(Cells(alloc))
    requires forall j :: 0 <= j < alloc.Length1 ==> ColSum(Cells(alloc), j) == demand[j]
    modifies alloc
    ensures IsRepairRun(cost, supply, alloc.Length1, trace, steps) && |steps| == transfers
    ensures trace[0] == old(Cells(alloc)) && trace[transfers] == Cells(alloc)
    ensures Nonneg(Cells(alloc))
    ensures forall j :: 0 <= j < alloc.Length1 ==> ColSum(Cells(alloc), j) == demand[j]
    ensures iterations <= MaxFeasIters && (outcome == CapExceeded <==> iterations == MaxFeasIters)
    ensures transfers == if outcome == Feasible then iterations else iterations - 1
    ensures outcome == Feasible ==> forall i :: 0 <= i < alloc.Length0 ==> RowSum(Cells(alloc), i) <= supply[i]
    ensures outcome == Feasible && Sum(supply) == Sum(demand) ==>
      forall i :: 0 <= i < alloc.Length0 ==> RowSum(Cells(alloc), i) == supply[i]
    ensures outcome != Feasible ==> exists i :: 0 <= i < alloc.Length0 && RowSum(Cells(alloc), i) > supply[i]
    ensures outcome == Stuck ==> forall i :: 0 <= i < alloc.Length0 ==> RowSum(Cells(alloc), i) >= supply[i]
    ensures Sum(supply) == Sum(demand) ==> outcome != Stuck
  {
    var n := alloc.Length1;
    iterations, transfers := 0, 0;
    trace, steps := [Cells(alloc)], [];
    while true
      invariant IsRepairRun(cost, supply, n, trace, steps) && |steps| == transfers
      invariant trace[0] == old(Cells(alloc)) && trace[transfers] == Cells(alloc)
      invariant Nonneg(Cells(alloc))
      invariant forall j :: 0 <= j < n ==> ColSum(Cells(alloc), j) == demand[j]
      invariant iterations < MaxFeasIters && transfers == iterations
      decreases MaxFeasIters - iterations
    {
      var stop;
      ghost var step;
      stop, iterations, step := RepairRound(cost, supply, demand, alloc, iterations);
      if stop.Some? {
        outcome := stop.value;
        break;
      }
      ExtendRun(cost, supply, n, trace, steps, step, Cells(alloc));
      trace, steps := trace + [Cells(alloc)], steps + [step];
      transfers := transfers + 1;
    }
  }

  /** make_feasible_ssm: the initial allocation, then the repair loop. */
  method MakeFeasible(cost: Matrix, supply: seq<int>, demand: seq<int>, alloc: array2<int>)
    returns (outcome: Outcome, iterations: nat, transfers: nat, ghost trace: seq<Matrix>, ghost steps: seq<Step>)
    requires alloc.Length0 >= 1 || alloc.Length1 == 0
    requires IsGrid(cost, alloc.Length0, alloc.Length1)
    requires |supply| == alloc.Length0 && |demand| == alloc.Length1
    requires forall i :: 0 <= i < |supply| ==> supply[i] >= 0
    requires forall j :: 0 <= j < |demand| ==> demand[j] >= 0
    modifies alloc
    ensures IsRepairRun(cost, supply, alloc.Length1, trace, steps) && |steps| == transfers
    ensures trace[0] == InitialGrid(cost, demand, alloc.Length0, alloc.Length1)
    ensures trace[transfers] == Cells(alloc)
    ensures Nonneg(Cells(alloc))
    ensures forall j :: 0 <= j < alloc.Length1 ==> ColSum(Cells(alloc), j) == demand[j]
    ensures iterations <= MaxFeasIters && (outcome == CapExceeded <==> iterations == MaxFeasIters)
    ensures transfers == if outcome == Feasible then iterations else iterations - 1
    ensures outcome == Feasible ==> forall i :: 0 <= i < alloc.Length0 ==> RowSum(Cells(alloc), i) <= supply[i]
    ensures outcome == Feasible && Sum(supply) == Sum(demand) ==>
      forall i :: 0 <= i < alloc.Length0 ==> RowSum(Cells(alloc), i) == supply[i]
    ensures outcome != Feasible ==> exists i :: 0 <= i < alloc.Length0 && RowSum(Cells(alloc), i) > supply[i]
    ensures outcome == Stuck ==> forall i :: 0 <= i < alloc.Length0 ==> RowSum(Cells(alloc), i) >= supply[i]
    ensures Sum(supply) == Sum(demand) ==> outcome != Stuck
  {
    InitialAllocation(cost, demand, alloc);
    outcome, iterations, transfers, trace, steps := RepairLoop(cost, supply, demand, alloc);
  }

}
