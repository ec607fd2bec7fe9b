# Exact 0/1 knapsack solver

A Dafny model of the exact 0/1 knapsack solver in `implementations/knapsack.py`. The solver has two parts:

- a table builder that fills a `(item_count + 1) x (total_capacity + 1)` table bottom-up;
- a backtracking reconstructor that walks from the last cell back to row 0 and produces the 0/1 `taken` vector.

The model has two modules.

- `KnapsackSpec` (`knapsack_spec.dfy`) holds the specification.
  - `Item` is the item record.
  - `TableCell(items, i, c)` is the recurrence the table holds.
  - `Walk(items, i, c)` is the selection the backtrack recovers when it walks all the way to row 0.
  - `TotalValue` and `TotalWeight` give the value and weight of a selection.
  - The lemmas prove:
    - the table: no cell is negative, and cells never decrease along either axis;
    - optimality against every feasible selection;
    - the walk: it is feasible, its value matches the cell, it breaks ties skip-first, and the early stop changes nothing.
- `Knapsack` (`knapsack.dfy`) holds the imperative solver.
  - `BuildTable` and `FillRow` fill an `array2<int>` with the source's nested loops.
  - `Backtrack` runs the source's walk over an `array<int>`. It keeps the running `value`, the running `activeCapacity` and the early `break`.
  - `Solve` is the entry point. It returns the last cell's value, the optimality flag and the selection.

Walk is a function, so the selection is deterministic: identical inputs give identical selections.

The comment at implementations/knapsack.py:73-74 says each table cell holds the best value reachable with the first items at that capacity. The code keeps that promise only in part, and the model follows the code:

- Column 0 of the table is never written: the inner loop starts at capacity 1.
  - An item of weight 0 with a positive value is therefore not counted at capacity 0, although it is counted at every capacity of 1 or more.
  - A later item that lands on column 0 then loses it.
  - So the last cell is guaranteed to be the true optimum only when every weight is at least 1.
  - `ZeroWeightCounterexample` gives an instance where the table holds 10 and the true optimum is 15.
- The code writes the literal `0` as the optimality flag, although the algorithm is exact whenever every weight is at least 1. `Solve` returns `optimalFlag == 0`.
- The code does not validate its input. The model states the cases it cannot handle as preconditions; it has no error path.
  - A negative weight can make `active_capacity - weight` point past the end of the row above.
  - A capacity below 0 leaves no cell `table[item_count][total_capacity]` to read.
  - Negative values need no precondition: no cell is ever negative, so the walk and its early stop behave the same.

## Model

| member | source | states |
|---|---|---|
| Knapsack.ItemsOf | implementations/knapsack.py:68-71 | one item per (value, weight) pair, in input order; item k has index k and carries the pair's value and weight |
| Knapsack.BuildTable | implementations/knapsack.py:75-85 | the table has item_count + 1 rows of total_capacity + 1 columns; row 0 and column 0 are all 0; every other cell copies the cell above when the item is heavier than the column, and otherwise holds the larger of that cell and the cell `weight` columns to the left in the row above plus the item's value; every cell equals `TableCell` |
| Knapsack.FillRow | implementations/knapsack.py:79-85 | after filling row i from column 1 upwards, every cell of row i equals `TableCell(items, i, c)`, and no other row changes |
| Knapsack.Backtrack | implementations/knapsack.py:88-99 | `taken` has one entry per item and equals the full walk `Walk(items, n, capacity)`; the early stop at `value <= 0` leaves every unvisited item at 0 and gives the same vector as walking on to row 0 |
| Knapsack.Solve | implementations/knapsack.py:73-102 | the reported value is the last cell of the table and the flag is 0; the selection is 0/1, one flag per item, weighs at most the capacity and is worth exactly the reported value; when every weight is at least 1, no feasible selection is worth more |
| KnapsackSpec.TableCell | implementations/knapsack.py:75-85 | cell (i, c) is 0 in row 0 and column 0; otherwise it copies the cell above, or holds the larger of that cell and the cell `weight` columns to the left in the row above plus the item's value |
| KnapsackSpec.TableCellNonNegative | implementations/knapsack.py:75-85 | no cell is negative, whatever the values: each cell is at least the one above it and row 0 is 0 |
| KnapsackSpec.TableCellRowsMonotone | implementations/knapsack.py:81-85 | down each column the table never decreases: `TableCell(i, c) <= TableCell(j, c)` for `i <= j` |
| KnapsackSpec.TableCellColumnsMonotone | implementations/knapsack.py:79-85 | along each row the table never decreases, whatever the values: a larger capacity never lowers the optimum |
| KnapsackSpec.TableCellPrefix | implementations/knapsack.py:78-85 | row i depends only on the first i items |
| KnapsackSpec.AppendItemNoDecrease | implementations/knapsack.py:78-85 | appending an item to the instance never lowers the last cell |
| KnapsackSpec.TableCellUpperBound | implementations/knapsack.py:73-85 | with every weight at least 1, no selection of the first i items that fits in c is worth more than cell (i, c) |
| KnapsackSpec.TableCellIsOptimum | implementations/knapsack.py:73-85 | with every weight at least 1, cell (i, c) is the maximum value over all selections of the first i items that fit in c, and the walk attains it |
| KnapsackSpec.ZeroWeightCounterexample | implementations/knapsack.py:79 | because column 0 is never filled, items (5, weight 0) and (10, weight 1) at capacity 1 give a cell of 10 while taking both fits and is worth 15 |
| KnapsackSpec.Walk | implementations/knapsack.py:91-99 | the walk from row i produces exactly one flag for each of the first i items |
| KnapsackSpec.TieBreakExample | implementations/knapsack.py:94-95 | with two items (value 10, weight 1) and capacity 1 the walk gives `[1, 0]`: the second item is skipped because the cell above already holds 10, although `[0, 1]` also fits and is worth 10 |
| KnapsackSpec.WalkTakes | implementations/knapsack.py:96-99 | an item is taken only when it fits the remaining capacity, and then the cell equals the cell it came from plus the item's value, so the running value stays the cell's value and the capacity stays non-negative |
| KnapsackSpec.WalkSound | implementations/knapsack.py:88-99 | the walk's selection is 0/1, its total weight is at most the capacity and its total value equals the starting cell |
| KnapsackSpec.WalkAllZero | implementations/knapsack.py:92-93 | from a cell worth 0 the walk takes nothing, so stopping there gives the same result as walking on |
| KnapsackSpec.ZeroCapacityTakesNothing | implementations/knapsack.py:75-95 | with capacity 0 the value is 0 and no item is taken |
| KnapsackSpec.ThreeItemExample | implementations/knapsack.py:75-99 | values 60, 100, 120 with weights 10, 20, 30 and capacity 50 give 220, taking the second and third items |
| KnapsackSpec.NoFitExample | implementations/knapsack.py:75-99 | a single item of weight 5 and capacity 4 give 0, taking nothing |

## Left out

- Text parsing of the input with `split` and `int` (implementations/knapsack.py:60-70) is left out: it is I/O. `Solve` takes the (value, weight) pairs and the capacity directly.
- Output formatting (implementations/knapsack.py:102-103) is left out. `Solve` returns the value, the flag and `taken` as a `Solution` value instead of a string.
- `visualize_knapsack` and its call (implementations/knapsack.py:12-50, 106) are left out: they only plot with matplotlib.
- The `__main__` driver (implementations/knapsack.py:111-115) is left out: it only reads a file and prints.
- The `time` import is left out: it is unused.
- The other solvers are left out: implementations/vrp.py, implementations/tsp.py, implementations/facility.py and implementations/graph_coloring.py. They delegate to the OR-tools routing, CP-SAT and SCIP engines and work with floating-point distances.
- Knapsack.Solve: optimality is promised only when every weight is at least 1. Column 0 of the table is never filled, so a zero-weight item can make the last cell smaller than the true optimum (see `ZeroWeightCounterexample`).
- Input validation is not modelled: the code performs none. Non-negative weights and a natural-number capacity are preconditions. Without them the code can index outside the table.
- Integer width is not an issue: Python integers are unbounded and are modelled as Dafny `int`.
