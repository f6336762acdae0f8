/**
 * The northwest-corner rule (P4.py, `northwest_corner_method`): a single
 * cursor walks from the top-left cell, ships as much as it can through the
 * cell under it, and moves down when the row is exhausted and right when the
 * column is exhausted (both when both are).
 */
module Northwest {
  import opened Transport

  /**
   * Non-zero cells form a staircase: going down the rows they never move to
   * the left.
   */
  predicate Staircase(A: seq<seq<int>>)
  {
    forall r1, c1, r2, c2 ::
      0 <= r1 < r2 < |A| && 0 <= c1 < |A[r1]| && 0 <= c2 < |A[r2]| && A[r1][c1] != 0 && A[r2][c2] != 0
      ==> c1 <= c2
  }

  /**
   * What the cursor (i, j) knows: rows above it and columns left of it are
   * exhausted, nothing at or below-right of it has been written, and every
   * written cell lies above-left of it on a staircase.
   */
  predicate Cursor(A: seq<seq<int>>, supplyLeft: seq<int>, demandLeft: seq<int>, i: nat, j: nat)
    requires IsMatrix(A, |supplyLeft|, |demandLeft|)
  {
    i <= |supplyLeft| && j <= |demandLeft|
    && (forall r :: 0 <= r < i ==> supplyLeft[r] == 0)
    && (forall c :: 0 <= c < j ==> demandLeft[c] == 0)
    && (forall r, c :: i <= r < |supplyLeft| && j <= c < |demandLeft| ==> A[r][c] == 0)
    && (forall r, c :: 0 <= r < |supplyLeft| && 0 <= c < |demandLeft| && A[r][c] != 0 ==> r <= i && c <= j)
    && Staircase(A)
  }

  /**
   * One iteration of the loop (P4.py:18-26): after shipping through the cursor
   * cell, the cursor moves down, right, or both, and what it knows still holds.
   */
  lemma CursorStep(A: seq<seq<int>>, supplyLeft: seq<int>, demandLeft: seq<int>,
                   supply: seq<int>, demand: seq<int>, i: nat, j: nat)
    requires Ledger(A, supplyLeft, demandLeft, supply, demand)
    requires Cursor(A, supplyLeft, demandLeft, i, j) && i < |supply| && j < |demand|
    ensures var q := Min(supplyLeft[i], demandLeft[j]);
      var s', d' := supplyLeft[i := supplyLeft[i] - q], demandLeft[j := demandLeft[j] - q];
      var i', j' := if s'[i] <= 0 then i + 1 else i, if d'[j] <= 0 then j + 1 else j;
      i' + j' > i + j && IsMatrix(Put(A, i, j, q), |s'|, |d'|) && Cursor(Put(A, i, j, q), s', d', i', j')
  {
    var q := Min(supplyLeft[i], demandLeft[j]);
    var B := Put(A, i, j, q);
    var s', d' := supplyLeft[i := supplyLeft[i] - q], demandLeft[j := demandLeft[j] - q];
    var i', j' := if s'[i] <= 0 then i + 1 else i, if d'[j] <= 0 then j + 1 else j;
    forall r1, c1, r2, c2 |
      0 <= r1 < r2 < |B| && 0 <= c1 < |B[r1]| && 0 <= c2 < |B[r2]| && B[r1][c1] != 0 && B[r2][c2] != 0
      ensures c1 <= c2
    {
      if (r1, c1) != (i, j) && (r2, c2) != (i, j) {
        assert A[r1][c1] != 0 && A[r2][c2] != 0;
      }
    }
  }

  /**
   * The body of the loop (P4.py:18-26): ship through the cursor cell, then
   * step down if its row is exhausted and right if its column is.
   */
  method Advance(alloc: array2<int>, supplyLeft: array<int>, demandLeft: array<int>, i: nat, j: nat,
                 ghost supply: seq<int>, ghost demand: seq<int>) returns (q: int, i': nat, j': nat)
    requires supplyLeft != demandLeft && alloc.Length0 == |supply| && alloc.Length1 == |demand|
    requires i < |supply| && j < |demand|
    requires Ledger(Grid(alloc), supplyLeft[..], demandLeft[..], supply, demand)
    requires Cursor(Grid(alloc), supplyLeft[..], demandLeft[..], i, j)
    modifies alloc, supplyLeft, demandLeft
    ensures q == Min(old(supplyLeft[i]), old(demandLeft[j]))
    ensures Grid(alloc) == Put(old(Grid(alloc)), i, j, q)
    ensures supplyLeft[..] == old(supplyLeft[..])[i := old(supplyLeft[i]) - q]
    ensures demandLeft[..] == old(demandLeft[..])[j := old(demandLeft[j]) - q]
    ensures i' == (if supplyLeft[i] <= 0 then i + 1 else i) && j' == (if demandLeft[j] <= 0 then j + 1 else j)
    ensures Ledger(Grid(alloc), supplyLeft[..], demandLeft[..], supply, demand)
    ensures Cursor(Grid(alloc), supplyLeft[..], demandLeft[..], i', j')
    ensures i' + j' > i + j && i' <= |supply| && j' <= |demand|
  {
    ghost var A, s, d := Grid(alloc), supplyLeft[..], demandLeft[..];
    q := Ship(alloc, supplyLeft, demandLeft, i, j, supply, demand);
    CursorStep(A, s, d, supply, demand, i, j);
    i', j' := i, j;
    if supplyLeft[i] <= 0 {
      i' := i + 1;
    }
    if demandLeft[j] <= 0 {
      j' := j + 1;
    }
  }

  /**
   * Returns a fresh allocation. The caller's vectors are values and cannot
   * change; `steps` counts the loop iterations.
   */
  method NorthwestCorner(cost: seq<seq<int>>, supply: seq<int>, demand: seq<int>) returns (alloc: array2<int>, ghost steps: nat)
    requires Problem(cost, supply, demand)
    ensures fresh(alloc) && alloc.Length0 == |supply| && alloc.Length1 == |demand|
    ensures Shipment(Grid(alloc), supply, demand)
    ensures RowsMet(Grid(alloc), supply) || ColumnsMet(Grid(alloc), demand)
    ensures Balanced(supply, demand) ==> Feasible(Grid(alloc), supply, demand)
    ensures Staircase(Grid(alloc))
    ensures steps <= |supply| + |demand|
  {
    var m, n := |supply|, |demand|;
    var supplyLeft, demandLeft;
    alloc, supplyLeft, demandLeft := Start(supply, demand);
    steps := 0;

    var i, j := 0, 0;
    while i < m && j < n
      invariant supplyLeft.Length == m && demandLeft.Length == n
      invariant alloc.Length0 == m && alloc.Length1 == n
      invariant Ledger(Grid(alloc), supplyLeft[..], demandLeft[..], supply, demand)
      invariant Cursor(Grid(alloc), supplyLeft[..], demandLeft[..], i, j)
      invariant steps + (m - i) + (n - j) <= m + n
      decreases m - i + n - j
    {
      var q;
      q, i, j := Advance(alloc, supplyLeft, demandLeft, i, j, supply, demand);
      steps := steps + 1;
    }
    ghost var A, s, d := Grid(alloc), supplyLeft[..], demandLeft[..];
    assert i == m ==> AllZero(s);
    assert j == n ==> AllZero(d);
    Settle(A, s, d, supply, demand);
  }
}
