# Transportation-problem heuristic (modif-ssm.c): a verified model

This project models the allocation engine of `modif-ssm.c`, a C program for the
classical transportation problem. An m-by-n grid of unit costs, a supply per
row (origin) and a demand per column (destination) are given. The program builds
a nonnegative integer allocation grid in two phases:

- **Feasibility repair** (`make_feasible_ssm`). Each column's whole demand goes to
  the cheapest row of that column. Then, while some row holds more than its
  supply, one iteration classifies the rows as over-supplied, satisfied or not
  satisfied. It then finds, in every conflicting column, the first over-supplied
  row (flc) and the cheapest not-satisfied row (slc). It picks the column with
  the smallest cost difference, and moves an amount down that column by a
  five-case transfer rule. The loop has a cap of 2000 iterations.
- **Rectangle improvement** (`improve_with_rectangles`). Steepest descent over
  2x2 "rectangle swaps". Each pass scans every pair of rows r1 < r2 and columns
  c1 < c2 and evaluates both diagonal moves. It keeps the first move with the
  most negative cost change, and applies it with theta equal to the smaller
  donor cell. Passes repeat until no admissible move lowers the cost.
- **Cost** (`total_biaya`). The sum over all cells of unit cost times amount.

The allocation grid, the one thing the source updates in place, is an
`array2<int>` that the methods modify. `Cells(alloc)` is its value as a
`seq<seq<int>>`. Costs, supplies and demands are read-only sequences. Every
method is proved against functions and predicates on these values:

- `Sum`, `RowSum`, `ColSum` and `Add` in `Matrices`;
- `Cost` in `CostEvaluator`;
- `Delta`, `Shift`, `LocallyOptimal`, `IsFirstBest`, `IsDescentStep` (one pass: the scan's
  first best move shifted by the smaller donor amount) and `IsDescentRun` (a sequence of
  passes) in `RectangleOptimizer`;
- `StatusOf`, `FirstConflictSpec`, `SecondCandidateSpec`, `IsSelected`,
  `MoveAmount` and `MoveWithinColumn` in `FeasibilityEngine`.

Modules: `Wrappers` (an `Option`, used where the C code stores -1 or `INT_MAX`
for "none"), `Matrices`, `CostEvaluator`, `RectangleOptimizer`, `FeasibilityEngine`.

## Model

| member | source | states |
|---|---|---|
| CostEvaluator.TotalCost | modif-ssm.c:21-27 | the accumulated total equals `Cost`, the sum over rows of the sums of unit cost times amount |
| CostEvaluator.CostNonneg | modif-ssm.c:21-27 | with nonnegative costs and amounts the total cost is nonnegative |
| CostEvaluator.AddCost | modif-ssm.c:21-27 | adding d to one cell changes the total cost by exactly that cell's unit cost times d |
| Matrices.RowsAndColumnsSameTotal | modif-ssm.c:271-455 | the row totals and the column totals of any grid add up to the same number, which is why matching every column's demand forces balanced supplies to be met exactly |
| Matrices.AddSums | modif-ssm.c:231-254 | adding d to cell (i, j) adds d to row i's and column j's totals and to no other |
| RectangleOptimizer.CheckRectangle | modif-ssm.c:126-187 | evaluating type 1 then type 2 of one rectangle, with replacement only on a strictly smaller delta, extends the scan invariant past that rectangle |
| RectangleOptimizer.ScanRow | modif-ssm.c:118-188 | after every c2 > c1 is scanned, the best-so-far is correct for every move before the next r2 |
| RectangleOptimizer.ScanCorner | modif-ssm.c:117-189 | after every r2 > r1 is scanned, the best-so-far is correct for every move before the next c1 |
| RectangleOptimizer.FindBestSwap | modif-ssm.c:104-201 | the scan finds no move exactly when no admissible move has a negative delta; otherwise it returns a move with the least delta, and ties go to the first move in scan order |
| RectangleOptimizer.Visit | modif-ssm.c:141-145 | the strict-improvement update keeps the scan invariant across one visited move |
| RectangleOptimizer.ShiftCells | modif-ssm.c:216-254 | a swap of amount t takes t from each donor cell, gives t to each receiving cell and leaves every other cell alone |
| RectangleOptimizer.ShiftConserves | modif-ssm.c:216-254 | a swap keeps every row total and every column total |
| RectangleOptimizer.ShiftCost | modif-ssm.c:129-161 | a swap of amount t changes the total cost by exactly delta times t |
| RectangleOptimizer.ShiftByTheta | modif-ssm.c:218-237 | for an admissible move, theta (the smaller donor) is positive, the swap keeps every cell nonnegative, and it empties one donor cell |
| RectangleOptimizer.SmallerDonor | modif-ssm.c:218-237 | theta equals the smaller donor cell of the kept move and is positive for an admissible move |
| RectangleOptimizer.AddAt | modif-ssm.c:231-234 | one `+=` on a cell yields the old grid with that amount added to that cell only |
| RectangleOptimizer.ApplySwap | modif-ssm.c:215-254 | the grid after the update is the swap of the chosen move by theta, theta is the smaller donor amount, and theta is positive, so the `theta <= 0` guard never fires |
| RectangleOptimizer.DescentStepEffect | modif-ssm.c:198-254 | one pass (the scan's first best move, shifted by the smaller donor amount) keeps cells nonnegative, keeps every row and column total, and strictly lowers the total cost |
| RectangleOptimizer.ExtendDescent | modif-ssm.c:104-254 | a run of passes followed by one more pass is again a run, with the same first grid |
| RectangleOptimizer.DescentRunPrefix | modif-ssm.c:104-254 | after k passes from a nonnegative grid, cells are nonnegative, every row and column total is unchanged, and the cost has dropped by at least k |
| RectangleOptimizer.DescentRunLowersCost | modif-ssm.c:104-254 | from a nonnegative grid, every single pass of a run strictly lowers the total cost |
| RectangleOptimizer.FirstPassNotOptimal | modif-ssm.c:104-201 | a run with at least one pass starts at a grid that is not locally optimal |
| RectangleOptimizer.ImprovePass | modif-ssm.c:104-254 | the scan finds no move exactly when the grid is locally optimal, and then nothing changes; otherwise the grid after the pass is the old grid with the scan's first best move (`IsFirstBest`) shifted by the smaller donor amount (`IsDescentStep`) |
| RectangleOptimizer.DescentLoop | modif-ssm.c:104-254 | the recorded trace is a run (`IsDescentRun`) from the given grid to the final grid, one pass per applied move, and the final grid is locally optimal |
| RectangleOptimizer.Improve | modif-ssm.c:95-269 | the recorded trace starts at the given grid and ends at the final one, and every pass in it applies the scan's first best move and strictly lowers the cost; the loop ends with no admissible cost-lowering move; cells stay nonnegative; row and column totals are unchanged; the cost drops by at least the number of applied moves; an already optimal grid is left as it is |
| FeasibilityEngine.CheapestRow | modif-ssm.c:278-279 | the chosen row has the least cost in the column and is the first such row |
| FeasibilityEngine.CheapestRowUnique | modif-ssm.c:278-279 | a column has only one first cheapest row |
| FeasibilityEngine.InitialAllocation | modif-ssm.c:272-283 | each cell holds the column's demand if its row is the column's first cheapest row and 0 otherwise, so every column total equals its demand |
| FeasibilityEngine.ClassifyRows | modif-ssm.c:292-300 | each row's total is its row sum, its status is over, satisfied or not satisfied by comparison with its supply, and the counter is the number of over-supplied rows |
| FeasibilityEngine.CountOverZero | modif-ssm.c:298-317 | the over-supplied counter is zero exactly when no row is over-supplied |
| FeasibilityEngine.FirstConflictRows | modif-ssm.c:325-335 | a column has an flc exactly when some over-supplied row holds a positive amount in it, and the flc is the first such row |
| FeasibilityEngine.SecondCandidates | modif-ssm.c:338-347 | a conflicting column's slc is its first cheapest not-satisfied row, and it is absent only when no row is not satisfied; a column without a conflict has no slc |
| FeasibilityEngine.SelectColumn | modif-ssm.c:350-380 | no column is chosen exactly when no column has both flc and slc; otherwise no eligible column has a smaller diff, or an equal diff and a larger amount at its flc, and the chosen column beats every eligible column before it |
| FeasibilityEngine.MoveAmount | modif-ssm.c:396-440 | when flc is over-supplied, slc is not satisfied and the flc cell is positive, the amount is positive, at most the flc cell, and it leaves the flc row at or above its supply or the slc row at or below its supply; with equal supplies and an over-supplied flc row the amount is the flc row's excess capped by the flc cell, so the `move < 0` branch on line 398 is never taken |
| FeasibilityEngine.MoveWithinColumnEffect | modif-ssm.c:396-440 | a move changes only the two cells of the column, keeps every column total, moves the amount from one row total to the other, and keeps cells nonnegative when the amount fits in the source cell |
| FeasibilityEngine.Transfer | modif-ssm.c:387-440 | the amount follows the five-case transfer rule, and the grid afterwards is the old grid with that amount moved from flc to slc in the chosen column |
| FeasibilityEngine.SelectedTransfer | modif-ssm.c:382-440 | the chosen column's flc and slc are different rows of the grid, and the amount moved is positive and at most what the flc cell holds |
| FeasibilityEngine.ChosenRowsBelow | modif-ssm.c:331-347 | every flc and slc is a row of the grid |
| FeasibilityEngine.StuckMeansNoRoom | modif-ssm.c:382-385 | when a row is over-supplied but no column can be selected, every row holds at least its supply |
| FeasibilityEngine.BalancedRowsExact | modif-ssm.c:271-455 | when supplies and demands have equal totals and every column meets its demand, rows that are all at most (or all at least) their supplies are all exactly their supplies |
| FeasibilityEngine.SelectedIsRepairStep | modif-ssm.c:324-440 | flc and slc as their specifications say, a column chosen as `IsSelected` says and the five-case amount together make one repair step (`IsRepairStep`) |
| FeasibilityEngine.RepairStepEffect | modif-ssm.c:387-440 | a repair step moves a positive amount, at most what the flc cell holds, between two different rows of one column; it keeps every column total and keeps cells nonnegative |
| FeasibilityEngine.RepairIteration | modif-ssm.c:324-440 | with a selectable column the grid after the iteration is exactly one repair step from the grid before it, with the returned column and amount, and 0 < amount <= the flc cell; with none it changes nothing and every row already holds at least its supply; either way cells stay nonnegative and column totals are kept |
| FeasibilityEngine.RepairRound | modif-ssm.c:291-440 | one pass of the loop body: with no over-supplied row it stops as Feasible without counting the iteration, and then every row is within its supply; otherwise it counts the iteration, stops as CapExceeded exactly when the counter reaches 2000, stops as Stuck (with every row at or above its supply) when no column is selectable, and otherwise takes one repair step; the grid changes only in that last case |
| FeasibilityEngine.ExtendRun | modif-ssm.c:290-449 | a run of the repair loop followed by one more repair step is again a run, with the same first grid |
| FeasibilityEngine.RepairRunKeepsColumns | modif-ssm.c:290-449 | along a whole run of the repair loop every column total stays what it was and nonnegative cells stay nonnegative |
| FeasibilityEngine.RepairLoop | modif-ssm.c:290-449 | the recorded trace is a run (`IsRepairRun`) from the grid the loop was given to the final grid, with one repair step per transfer; outcome, counters and row totals as in the list after this table |
| FeasibilityEngine.MakeFeasible | modif-ssm.c:271-455 | the recorded trace starts at the initial allocation (`InitialGrid`) and ends at the final grid, each grid one repair step from the one before; see the list after this table |

`FeasibilityEngine.MakeFeasible` (and `RepairLoop`, from whatever grid it is
given) returns a ghost `trace` of grids and `steps` of repair steps. `IsRepairStep`
says what one transfer is: the rows are classified against the supplies, some
row is over-supplied, every column's flc and slc are as their specifications
say, the column is the one `IsSelected` describes, the amount is `MoveAmount` of
that column's rows, and the next grid is `MoveWithinColumn` of the amount.
`IsRepairRun` says that each grid in the trace follows from the one before by the
recorded step. It ends with every cell nonnegative and every column total equal
to its demand, however it stops. Its outcome means:

- It reports the cap exactly when the iteration counter reached 2000.
- It makes one transfer per iteration that did not stop the loop, and the
  trace has exactly one step per transfer.
- On success no row exceeds its supply. With balanced totals every row meets
  its supply exactly.
- On any other outcome some row is still over-supplied.
- It reports being stuck only when every row is at or above its supply, which
  cannot happen when the totals are balanced.

## Left out

- Console output (`printf` under `VERBOSE` and `VERBOSE_RECTANGLE_SEARCH`) and the print helpers are not modelled. The cap warning on line 320 becomes the `CapExceeded` outcome of `MakeFeasible`. The stuck case on lines 382-385 becomes `Stuck`.
- `main`, the input files, the table of known optimal costs, and the final comparison against them are not part of this model.
- Integers are unbounded. The C code uses `int` cells and a `long long` cost total. Overflow is not modelled.
- The `INT_MAX` start value of the slc search and the `INT_MAX / 2` diff of an ineligible column become `Option`. With unit costs of `INT_MAX` or more, the C search would find no slc where the model finds one.
- The separate `konflik` loop (lines 325-328) and the `diff` array (lines 350-353) are folded into `FirstConflictRows` and `SelectColumn`. Both use the same conditions as the source, so the choices are the same.
- The `theta <= 0` guard (line 229 and its type 2 twin) is not modelled as a branch. `ShiftByTheta` proves that theta is positive for every move the scan returns, so the guard never fires.
- FindBestSwap: the four-deep loop nest is split into `FindBestSwap`, `ScanCorner`, `ScanRow` and `CheckRectangle`. Each is one loop level with the same bounds and order. In the same way, `ApplySwap` computes theta with `SmallerDonor` and does each `+=` with `AddAt`; the loop of `Improve` is `DescentLoop`, whose body is `ImprovePass`; and the loop of `MakeFeasible` is `RepairLoop`, whose body is `RepairRound`, which hands selection and transfer to `RepairIteration`.
- Improve: requires nonnegative unit costs. The system assumes this of its cost grid. The model uses it only as the lower bound that proves termination.
- MakeFeasible: requires nonnegative supplies and demands, which the system assumes of its input. It also requires at least one row when there is a column, because the initialisation reads row 0 of every column.
- The `move < 0` case of the equal-supply transfer (line 398) is modelled in `MoveAmount`. Its second `ensures` shows that, for an over-supplied flc row, this case is never taken.
