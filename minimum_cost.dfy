/**
 * The minimum-cost method (P4.py, `minimum_cost_method`): while both sides
 * still have something left, scan the whole matrix in row-major order for
 * the cheapest cell whose row has supply and whose column has demand, and
 * ship as much as possible through it.
 */
module MinimumCost {
  import opened Transport

  /** Cell (r, c) comes before cell (x, y) in row-major order. */
  predicate Before(r: int, c: int, x: int, y: int)
  {
    r < x || (r == x && c < y)
  }

  /**
   * Cell (i, j) is live, costs no more than any live cell, and strictly less
   * than every live cell before it in row-major order.
   */
  predicate CheapestCellAt(cost: seq<seq<int>>, supplyLeft: seq<int>, demandLeft: seq<int>, i: int, j: int)
    requires IsMatrix(cost, |supplyLeft|, |demandLeft|)
  {
    0 <= i < |supplyLeft| && 0 <= j < |demandLeft| && supplyLeft[i] > 0 && demandLeft[j] > 0
    && (forall r, c :: 0 <= r < |supplyLeft| && 0 <= c < |demandLeft| && supplyLeft[r] > 0 && demandLeft[c] > 0
          ==> cost[i][j] <= cost[r][c])
    && (forall r, c :: 0 <= r < |supplyLeft| && 0 <= c < |demandLeft| && supplyLeft[r] > 0 && demandLeft[c] > 0
          ==> (Before(r, c, i, j) ==> cost[i][j] < cost[r][c]))
  }

  /** Some cell has both supply left in its row and demand left in its column. */
  predicate SomeLiveCell(supplyLeft: seq<int>, demandLeft: seq<int>)
  {
    exists r, c :: 0 <= r < |supplyLeft| && 0 <= c < |demandLeft| && supplyLeft[r] > 0 && demandLeft[c] > 0
  }

  /** While both sides have a positive total, some cell is live. */
  lemma LiveCellExists(supplyLeft: seq<int>, demandLeft: seq<int>)
    requires NonNeg(supplyLeft) && NonNeg(demandLeft) && Sum(supplyLeft) > 0 && Sum(demandLeft) > 0
    ensures SomeLiveCell(supplyLeft, demandLeft)
  {
    PositiveSum(supplyLeft);
    PositiveSum(demandLeft);
    var r :| 0 <= r < |supplyLeft| && supplyLeft[r] > 0;
    var c :| 0 <= c < |demandLeft| && demandLeft[c] > 0;
  }

  /**
   * What the scan knows after visiting every cell before (i, j): (-1, -1)
   * while no live cell has been seen, otherwise the first cheapest live cell
   * seen so far and its cost.
   */
  predicate Scanned(cost: seq<seq<int>>, supplyLeft: seq<int>, demandLeft: seq<int>,
                    i: int, j: int, minI: int, minJ: int, minCost: int)
    requires IsMatrix(cost, |supplyLeft|, |demandLeft|)
  {
    var m, n := |supplyLeft|, |demandLeft|;
    if minI == -1 then
      minJ == -1
      && forall r, c :: 0 <= r < m && 0 <= c < n && Before(r, c, i, j) ==> !(supplyLeft[r] > 0 && demandLeft[c] > 0)
    else
      0 <= minI < m && 0 <= minJ < n && Before(minI, minJ, i, j)
      && supplyLeft[minI] > 0 && demandLeft[minJ] > 0 && minCost == cost[minI][minJ]
      && forall r, c :: 0 <= r < m && 0 <= c < n && Before(r, c, i, j) && supplyLeft[r] > 0 && demandLeft[c] > 0
           ==> minCost <= cost[r][c] && (Before(r, c, minI, minJ) ==> minCost < cost[r][c])
  }

  /**
   * The scan of P4.py:36-43. Returns (-1, -1), the source's starting indices,
   * exactly when there is no live cell.
   */
  method CheapestLiveCell(cost: seq<seq<int>>, supplyLeft: seq<int>, demandLeft: seq<int>) returns (minI: int, minJ: int)
    requires IsMatrix(cost, |supplyLeft|, |demandLeft|)
    ensures !SomeLiveCell(supplyLeft, demandLeft) ==> minI == -1 && minJ == -1
    ensures SomeLiveCell(supplyLeft, demandLeft) ==> CheapestCellAt(cost, supplyLeft, demandLeft, minI, minJ)
  {
    var m, n := |supplyLeft|, |demandLeft|;
    var minCost := 0;  // stands for np.inf while minI == -1
    minI, minJ := -1, -1;
    for i := 0 to m
      invariant Scanned(cost, supplyLeft, demandLeft, i, 0, minI, minJ, minCost)
    {
      for j := 0 to n
        invariant Scanned(cost, supplyLeft, demandLeft, i, j, minI, minJ, minCost)
      {
        if supplyLeft[i] > 0 && demandLeft[j] > 0 && (minI == -1 || cost[i][j] < minCost) {
          minCost := cost[i][j];
          minI, minJ := i, j;
        }
      }
      assert forall r, c :: 0 <= c < n ==> (Before(r, c, i + 1, 0) <==> Before(r, c, i, n));
    }
    assert forall r, c :: 0 <= r < m ==> Before(r, c, m, 0);
  }

  /**
   * Returns a fresh allocation; `steps` counts the iterations of the outer
   * loop. Works on unbalanced input too: it stops as soon as one side is
   * used up.
   */
  method MinimumCost(cost: seq<seq<int>>, supply: seq<int>, demand: seq<int>) returns (alloc: array2<int>, ghost steps: nat)
    requires Problem(cost, supply, demand)
    ensures fresh(alloc) && alloc.Length0 == |supply| && alloc.Length1 == |demand|
    ensures Shipment(Grid(alloc), supply, demand)
    ensures RowsMet(Grid(alloc), supply) || ColumnsMet(Grid(alloc), demand)
    ensures Balanced(supply, demand) ==> Feasible(Grid(alloc), supply, demand)
    ensures steps <= |supply| + |demand|
  {
    var supplyLeft, demandLeft;
    alloc, supplyLeft, demandLeft := Start(supply, demand);
    steps := 0;
    while Sum(supplyLeft[..]) > 0 && Sum(demandLeft[..]) > 0
      invariant supplyLeft.Length == |supply| && demandLeft.Length == |demand|
      invariant alloc.Length0 == |supply| && alloc.Length1 == |demand|
      invariant Ledger(Grid(alloc), supplyLeft[..], demandLeft[..], supply, demand)
      invariant Unshipped(Grid(alloc), supplyLeft[..], demandLeft[..])
      invariant steps + LiveCount(supplyLeft[..]) + LiveCount(demandLeft[..]) <= |supply| + |demand|
      decreases LiveCount(supplyLeft[..]) + LiveCount(demandLeft[..])
    {
      LiveCellExists(supplyLeft[..], demandLeft[..]);
      var minI, minJ := CheapestLiveCell(cost, supplyLeft[..], demandLeft[..]);
      var q := ShipLiveCell(alloc, supplyLeft, demandLeft, minI, minJ, supply, demand);
      steps := steps + 1;
    }
    ghost var A, s, d := Grid(alloc), supplyLeft[..], demandLeft[..];
    PositiveSum(s);
    PositiveSum(d);
    if Sum(s) <= 0 {
      SettledSum(s);
    } else {
      SettledSum(d);
    }
    Settle(A, s, d, supply, demand);
  }
}
