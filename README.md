# Initial solutions of the transportation problem

This project models `P4.py`, a program that builds an initial basic solution of a
balanced transportation problem. The inputs are a cost matrix (one row per origin,
one column per destination), a supply vector and a demand vector. The program has
four heuristics and a cost evaluator:

- the northwest-corner rule;
- the minimum-cost method;
- the minimum-row-cost method;
- Vogel's approximation method;
- `calculate_total_cost`, the sum over all cells of the quantity times the unit cost.

Each heuristic copies supply and demand into working vectors and starts from a zero
allocation matrix. It then repeats one shared step: pick a cell, ship
min(supply left, demand left) through it, and subtract that amount from both
working vectors. The heuristics differ only in how they pick the cell.

## Module layout

- `transport.dfy` (`Transport`) holds the shared vocabulary:
  - the problem (`Problem`, `Balanced`) and the shipment predicates (`Shipment`,
    `RowsMet`, `ColumnsMet`, `Feasible`);
  - the bookkeeping invariant `Ledger`: what is left plus what was shipped equals
    the original quantity, nothing is negative, and both sides shipped the same total;
  - the start (`Start`) and the shared step (`Ship`, `ShipLiveCell`).
- `scan.dfy` (`Scan`) holds the scan for the cheapest live entry of a row or a
  column. The source writes this scan out three times.
- `northwest.dfy`, `minimum_cost.dfy`, `minimum_row_cost.dfy` and `vogel.dfy` hold
  one heuristic each.
- `total_cost.dfy` holds the cost evaluator.

## How the model works

- The caller's cost, supply and demand are `seq` values. The heuristics cannot change
  them: the source's `.copy()` calls become the `array`s that `Start` allocates.
- The allocation is a fresh `array2<int>`. Its value, `Grid(alloc)`, is what the
  contracts talk about.
- The source starts its searches from `np.inf` with an index of -1. The model keeps
  the -1 index and treats the cost as unset while the index is -1.
- Every heuristic returns a ghost `steps` count, proved to be at most
  `|supply| + |demand|`. This is the termination argument: each step of the
  minimum-cost, minimum-row-cost and Vogel methods exhausts a row or a column, and
  each step of the northwest-corner rule moves its cursor.

## Model

| member | source | states |
|---|---|---|
| Transport.Start | P4.py:12-14 | The working supply and demand start equal to the inputs, the allocation is the zero matrix of the cost matrix's shape, and the bookkeeping ledger holds |
| Transport.Min | P4.py:18 | Python's `min` of two numbers: the result is one of them and no larger than either |
| Transport.SetCell | P4.py:19 | Writing one cell of the allocation changes that cell to the value and leaves every other cell as it was |
| Transport.Ship | P4.py:18-21 | The shipped amount is min(supply left, demand left) and is never negative. It is written into the chosen cell and nowhere else, and it is subtracted from exactly that row's supply and that column's demand. The ledger is preserved |
| Transport.ShipKeepsLedger | P4.py:18-21 | Shipping min(supply left, demand left) through an empty cell keeps row totals plus supply left equal to supply, and column totals plus demand left equal to demand. Everything stays non-negative and both sides shipped the same total |
| Transport.ShipLive | P4.py:45-48 | At a cell whose row has supply left and whose column has demand left, the amount is positive. Its row or its column is exhausted, so the count of live rows and columns strictly drops, and no live cell has been written |
| Transport.ShipLiveCell | P4.py:45-48 | The shared step at a live cell: the ledger is kept, no live cell is written, the amount is positive, and the number of live rows plus live columns strictly decreases |
| Transport.Settle | P4.py:35 | Whenever the ledger holds, the allocation ships no more than any supply or demand. Once supply is used up every row total equals its supply, and once demand is used up every column total equals its demand. On a balanced problem either one makes the allocation feasible |
| Transport.PositiveSum | P4.py:35 | A non-negative vector has a non-negative sum, and its sum is positive exactly when one of its entries is positive |
| Transport.SettledSum | P4.py:35 | A non-negative vector whose sum is not positive is all zeros |
| Transport.SumUpdate | P4.py:20-21 | Subtracting from one entry of a vector changes its sum by exactly that difference |
| Transport.LiveCountUpdate | P4.py:47-48 | Overwriting one entry changes the count of positive entries by whether that entry was positive before and after |
| Transport.Put | P4.py:19 | Writing one cell sets that cell and leaves every other cell and the shape unchanged |
| Scan.CheapestLive | P4.py:59-65 | Returns -1 exactly when no position has a positive quantity left. Otherwise it returns a live position that costs no more than any live position and strictly less than every earlier live position, so the first cheapest one wins ties |
| Scan.CheapestAtUnique | P4.py:62-65 | At most one position satisfies that contract, so the scan's answer is determined |
| Northwest.CursorStep | P4.py:18-26 | After one shipment the cursor moves down, right or both. Rows above it and columns left of it stay exhausted, and nothing at or below-right of it is written. Written cells stay above-left of it on a staircase |
| Northwest.Advance | P4.py:18-26 | One iteration ships min(supply left, demand left) through the cursor cell and writes only that cell. It subtracts the amount from that row's supply and that column's demand only. The cursor then moves down exactly when the row is exhausted and right exactly when the column is. The ledger and the cursor facts are kept, and the cursor never stands still |
| Northwest.NorthwestCorner | P4.py:11-28 | The result has the cost matrix's shape and ships no more than any supply or demand. All supplies or all demands are met, and a balanced problem gets a feasible allocation. Non-zero cells form a staircase from the top-left, and there are at most m + n iterations |
| MinimumCost.LiveCellExists | P4.py:35 | While both total supply and total demand are positive, some cell has both supply left in its row and demand left in its column |
| MinimumCost.CheapestLiveCell | P4.py:36-43 | Returns (-1, -1) when no cell is live. Otherwise it returns the live cell of least cost, and the first in row-major order among equally cheap live cells |
| MinimumCost.MinimumCost | P4.py:30-50 | The result has the cost matrix's shape and ships no more than any supply or demand. All supplies or all demands are met, a balanced problem gets a feasible allocation, and the loop runs at most m + n times |
| MinimumRowCost.EnoughDemand | P4.py:58-65 | With total demand at least total supply, a row that still has supply always finds a column that still has demand |
| MinimumRowCost.TraceExtend | P4.py:58-70 | A record of rounds followed by one more round is again a record of rounds |
| MinimumRowCost.ServeRound | P4.py:59-70 | With no less demand than supply and supply left in row i, one round finds the first cheapest column with demand left and ships min(row's supply, that column's demand) into that cell. Only that cell, the row's supply and that column's demand change. The ledger is kept, and the count of live rows and columns strictly drops |
| MinimumRowCost.ServeRow | P4.py:58-70 | Row i serves rounds until its supply is zero. The recorded rounds start from the row's supply and the demand on entry and end at the final ones, and each round takes min(supply, demand) off the row's supply and off the demand of the first cheapest column with demand left at that moment. No other row's supply or allocation changes, the ledger is kept, and no live cell is written |
| MinimumRowCost.MinimumRowCost | P4.py:52-72 | With total demand at least total supply, the result has the cost matrix's shape and ships no more than any supply or demand. Every row total equals its supply, a balanced problem gets a feasible allocation, and there are at most m + n shipments |
| Vogel.Filter | P4.py:84 | The comprehension keeps at most as many costs as the line has |
| Vogel.LivePositions | P4.py:84 | Every position the comprehension keeps lies inside the line |
| Vogel.LivePositionsSpec | P4.py:84 | The kept positions are exactly the live ones (positive quantity left), each listed once and in increasing order |
| Vogel.FilterContents | P4.py:84 | The kept costs are exactly the costs at the live positions, one per live position and in line order, so repeated costs keep their multiplicity |
| Vogel.SmallestTwo | P4.py:88-89 | Returns two distinct positions: the first holds an entry no larger than any entry, and the second an entry no larger than any entry other than the first |
| Vogel.SmallestTwoMatchesSort | P4.py:100-101 | For every sorted permutation of the costs, entries 0 and 1 are the values at the two positions SmallestTwo returns, so the penalty does not depend on how the sort orders equal costs |
| Vogel.Penalty | P4.py:81-89 | The penalty is -1 exactly when the line is exhausted and never negative otherwise. A live line with fewer than two live costs has penalty 0 |
| Vogel.PenaltyIsSortedGap | P4.py:88-89 | For a live line with two or more live costs and every sorted permutation of those costs, the penalty is entry 1 minus entry 0 |
| Vogel.PenaltyOfLine | P4.py:84-89 | If live positions a and b differ, a is no dearer than any live position and b no dearer than any live position other than a, then the penalty of the line is cost b minus cost a |
| Vogel.Penalties | P4.py:91-101 | One penalty per line, each -1 exactly when that line is exhausted and non-negative otherwise |
| Vogel.LinePenalties | P4.py:79-89 | The appending loop builds exactly the penalty list of every line |
| Vogel.MaxOf | P4.py:103-104 | The maximum is an element of the list and no element exceeds it |
| Vogel.FirstIndex | P4.py:107 | Returns a position holding the value with no earlier position holding it, as `list.index` does |
| Vogel.TopLine | P4.py:103-107 | The first position holding the largest penalty: it holds the maximum and every earlier position holds strictly less |
| Vogel.TopLineIsLive | P4.py:103-107 | While some line is live, the largest penalty is non-negative and the first line carrying it is live |
| Vogel.VogelSelect | P4.py:103-123 | While both sides have something left, the chosen cell is live. If the largest row penalty is at least the largest column penalty, the cell is on the first row with that penalty, at its cheapest live column. Otherwise it is on the first column with the largest penalty, at its cheapest live row |
| Vogel.Vogel | P4.py:73-130 | The result has the cost matrix's shape and ships no more than any supply or demand. All supplies or all demands are met, a balanced problem gets a feasible allocation, and there are at most m + n rounds |
| TotalCost.Dot | P4.py:133 | The products of non-negative quantities and costs sum to a non-negative total, and an all-zero row of quantities costs nothing |
| TotalCost.TotalCost | P4.py:132-133 | An all-zero allocation costs nothing, and non-negative quantities and costs give a non-negative total |
| TotalCost.CellContribution | P4.py:132-133 | Changing the quantity in cell (i, j) from a to v changes the total by exactly (v - a) times the cost of (i, j). With the zero case this makes the total the sum over cells of quantity times cost |

## Left out

- The CSV loader `read_transportation_problem` (P4.py:4-9) is file I/O through pandas and is not modelled. The model takes the matrix and the vectors as values.
- The driver (P4.py:136-155) only calls the four heuristics and prints their results, so it is not modelled.
- Quantities and costs are integers rather than floating-point numbers. Fractional inputs and rounding are not modelled. On whole numbers the source's `min`, subtraction and comparisons are exact.
- Inputs are required to be well formed rather than checked: a cost matrix of supply-by-demand shape, and non-negative supply and demand. The source does not reject such input. Depending on the input it returns an allocation with negative entries (for example, `min(-5, 5)` shipped at P4.py:18-19), returns an allocation of the cost matrix's shape with extra zero columns (`np.zeros_like(cost)` at P4.py:14), or raises IndexError when the cost matrix has fewer columns than demand. None of this is modelled.
- MinimumRowCost.MinimumRowCost: it requires total demand to be at least total supply. Without that, a row with supply left finds no column: `min_j` stays -1, Python reads the last column through index -1, the row's supply never decreases, and the loop does not end. With no columns at all, reading `demand_copy[-1]` (P4.py:67) raises IndexError instead.
- NorthwestCorner, MinimumCost and Vogel also accept unbalanced problems. For those the contracts promise only that one side is fully met and nothing is over-shipped, which is all the source's stopping rule gives.
- No heuristic is claimed to be optimal or to produce a basic solution with m + n - 1 non-zero cells. The source promises neither; the staircase shape is proved for the northwest-corner rule only.
- numpy's element-wise product and `np.sum` are modelled as a row-by-row sum. Its order of summation does not matter on integers.
- The ghost `steps` results exist only in the model: they bound the number of shipments and do not correspond to a value the source returns.
