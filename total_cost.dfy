/**
 * The cost evaluator (P4.py, `calculate_total_cost`): the sum over all cells
 * of the quantity shipped times the unit cost, `np.sum(allocation * cost)`.
 */
module TotalCost {
  import opened Transport

  /** Two matrices of the same shape. */
  predicate SameShape(A: seq<seq<int>>, C: seq<seq<int>>)
  {
    |A| == |C| && forall i :: 0 <= i < |A| ==> |A[i]| == |C[i]|
  }

  /** Sum of the element-wise products of two rows. */
  function Dot(a: seq<int>, c: seq<int>): (r: int)
    requires |a| == |c|
    ensures NonNeg(a) && NonNeg(c) ==> r >= 0
    ensures AllZero(a) ==> r == 0
  {
    if |a| == 0 then 0 else a[0] * c[0] + Dot(a[1..], c[1..])
  }

  /**
   * Total cost of allocation `A` under unit costs `C`. An all-zero allocation
   * costs nothing, and with non-negative quantities and costs the total is
   * never negative.
   */
  function TotalCost(A: seq<seq<int>>, C: seq<seq<int>>): (t: int)
    requires SameShape(A, C)
    ensures NonNegMatrix(A) && NonNegMatrix(C) ==> t >= 0
    ensures (forall i :: 0 <= i < |A| ==> AllZero(A[i])) ==> t == 0
  {
    if |A| == 0 then 0 else Dot(A[0], C[0]) + TotalCost(A[1..], C[1..])
  }

  /** Changing one entry of a row changes its product sum by that entry's difference times its cost. */
  lemma {:induction false} DotUpdate(a: seq<int>, c: seq<int>, j: nat, v: int)
    requires |a| == |c| && j < |a|
    ensures Dot(a[j := v], c) == Dot(a, c) + (v - a[j]) * c[j]
  {
    if j == 0 {
      assert a[j := v][1..] == a[1..];
    } else {
      assert a[j := v][1..] == a[1..][j - 1 := v];
      DotUpdate(a[1..], c[1..], j - 1, v);
    }
  }

  /**
   * Each cell contributes exactly its quantity times its cost: changing the
   * quantity at (i, j) from A[i][j] to v changes the total by
   * (v - A[i][j]) * C[i][j]. With the all-zero case, this pins the total down
   * as the sum over all cells.
   */
  lemma {:induction false} CellContribution(A: seq<seq<int>>, C: seq<seq<int>>, i: nat, j: nat, v: int)
    requires SameShape(A, C) && i < |A| && j < |A[i]|
    ensures SameShape(Put(A, i, j, v), C)
    ensures TotalCost(Put(A, i, j, v), C) == TotalCost(A, C) + (v - A[i][j]) * C[i][j]
  {
    var B := Put(A, i, j, v);
    if i == 0 {
      assert B[1..] == A[1..];
      assert B[0] == A[0][j := v];
      DotUpdate(A[0], C[0], j, v);
    } else {
      assert B[1..] == Put(A[1..], i - 1, j, v);
      CellContribution(A[1..], C[1..], i - 1, j, v);
    }
  }
}
