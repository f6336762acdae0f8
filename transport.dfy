/**
 * The problem model shared by the four allocation heuristics of P4.py:
 * a cost matrix, a supply vector and a demand vector, the working copies
 * that each heuristic decrements, and the allocation step they all share
 * ("allocate min(supply left, demand left), subtract it from both").
 *
 * Quantities and costs are integers. The source only takes `min`s of,
 * subtracts and compares its floating-point numbers, which is exact on whole
 * numbers.
 */
module Transport {

  /** `np.sum` over a vector. */
  function Sum(s: seq<int>): int
  {
    if |s| == 0 then 0 else s[0] + Sum(s[1..])
  }

  /** Python's `min` of two numbers: the smaller one. */
  function Min(a: int, b: int): (r: int)
    ensures r <= a && r <= b && (r == a || r == b)
  {
    if a <= b then a else b
  }

  predicate NonNeg(s: seq<int>)
  {
    forall k :: 0 <= k < |s| ==> s[k] >= 0
  }

  predicate AllZero(s: seq<int>)
  {
    forall k :: 0 <= k < |s| ==> s[k] == 0
  }

  /** Number of origins (or destinations) that still have a positive quantity. */
  function LiveCount(s: seq<int>): (r: nat)
    ensures r <= |s|
  {
    if |s| == 0 then 0 else (if s[0] > 0 then 1 else 0) + LiveCount(s[1..])
  }

  /** `m` rows of `n` entries each. */
  predicate IsMatrix(A: seq<seq<int>>, m: nat, n: nat)
  {
    |A| == m && forall i :: 0 <= i < m ==> |A[i]| == n
  }

  predicate NonNegMatrix(A: seq<seq<int>>)
  {
    forall i, j :: 0 <= i < |A| && 0 <= j < |A[i]| ==> A[i][j] >= 0
  }

  /** Column `j` of `A`, top to bottom. */
  function Column(A: seq<seq<int>>, j: nat): (col: seq<int>)
    requires forall i :: 0 <= i < |A| ==> j < |A[i]|
    ensures |col| == |A| && forall i :: 0 <= i < |A| ==> col[i] == A[i][j]
  {
    seq(|A|, i requires 0 <= i < |A| => A[i][j])
  }

  /** The `n` columns of `A`, each as a sequence. */
  function Transpose(A: seq<seq<int>>, n: nat): (T: seq<seq<int>>)
    requires IsMatrix(A, |A|, n)
    ensures IsMatrix(T, n, |A|)
    ensures forall j, i :: 0 <= j < n && 0 <= i < |A| ==> T[j][i] == A[i][j]
  {
    seq(n, j requires 0 <= j < n => Column(A, j))
  }

  /** The matrix `np.zeros_like(cost)` that every heuristic starts from. */
  function Zeros(m: nat, n: nat): (Z: seq<seq<int>>)
    ensures IsMatrix(Z, m, n) && forall i, j :: 0 <= i < m && 0 <= j < n ==> Z[i][j] == 0
  {
    seq(m, _ => seq(n, _ => 0))
  }

  /** The value currently held by an allocation array. */
  function Grid(a: array2<int>): (A: seq<seq<int>>)
    reads a
    ensures IsMatrix(A, a.Length0, a.Length1)
  {
    seq(a.Length0, i requires 0 <= i < a.Length0 reads a =>
      seq(a.Length1, j requires 0 <= j < a.Length1 reads a => a[i, j]))
  }

  /** What every heuristic may assume of its inputs: shapes agree and quantities are non-negative. */
  predicate Problem(cost: seq<seq<int>>, supply: seq<int>, demand: seq<int>)
  {
    IsMatrix(cost, |supply|, |demand|) && NonNeg(supply) && NonNeg(demand)
  }

  /** Total supply equals total demand. */
  predicate Balanced(supply: seq<int>, demand: seq<int>)
  {
    Sum(supply) == Sum(demand)
  }

  /** Amount shipped out of origin `i`. */
  function RowTotal(A: seq<seq<int>>, i: nat): int
    requires i < |A|
  {
    Sum(A[i])
  }

  /** Amount shipped into destination `j`. */
  function ColumnTotal(A: seq<seq<int>>, j: nat): int
    requires forall i :: 0 <= i < |A| ==> j < |A[i]|
  {
    Sum(Column(A, j))
  }

  /** A non-negative shipment that sends out no more than each origin has and delivers no more than each destination wants. */
  predicate Shipment(A: seq<seq<int>>, supply: seq<int>, demand: seq<int>)
  {
    IsMatrix(A, |supply|, |demand|) && NonNegMatrix(A)
    && (forall i :: 0 <= i < |supply| ==> RowTotal(A, i) <= supply[i])
    && (forall j :: 0 <= j < |demand| ==> ColumnTotal(A, j) <= demand[j])
  }

  /** Every origin ships exactly its supply. */
  predicate RowsMet(A: seq<seq<int>>, supply: seq<int>)
    requires |A| == |supply|
  {
    forall i :: 0 <= i < |supply| ==> RowTotal(A, i) == supply[i]
  }

  /** Every destination receives exactly its demand. */
  predicate ColumnsMet(A: seq<seq<int>>, demand: seq<int>)
    requires forall i :: 0 <= i < |A| ==> |A[i]| == |demand|
  {
    forall j :: 0 <= j < |demand| ==> ColumnTotal(A, j) == demand[j]
  }

  /** A feasible solution of the transportation problem. */
  predicate Feasible(A: seq<seq<int>>, supply: seq<int>, demand: seq<int>)
  {
    Shipment(A, supply, demand) && RowsMet(A, supply) && ColumnsMet(A, demand)
  }

  /**
   * The bookkeeping every heuristic keeps: what is left of a quantity plus what
   * has been shipped along its row (column) is the original quantity, nothing is
   * negative, and both sides have shipped the same total.
   */
  predicate Ledger(A: seq<seq<int>>, supplyLeft: seq<int>, demandLeft: seq<int>, supply: seq<int>, demand: seq<int>)
  {
    |supplyLeft| == |supply| && |demandLeft| == |demand| && IsMatrix(A, |supply|, |demand|)
    && NonNeg(supplyLeft) && NonNeg(demandLeft) && NonNegMatrix(A)
    && (forall i :: 0 <= i < |supply| ==> RowTotal(A, i) + supplyLeft[i] == supply[i])
    && (forall j :: 0 <= j < |demand| ==> ColumnTotal(A, j) + demandLeft[j] == demand[j])
    && Sum(supply) - Sum(supplyLeft) == Sum(demand) - Sum(demandLeft)
  }

  /** No cell whose row still has supply and whose column still has demand has been written yet. */
  predicate Unshipped(A: seq<seq<int>>, supplyLeft: seq<int>, demandLeft: seq<int>)
    requires IsMatrix(A, |supplyLeft|, |demandLeft|)
  {
    forall r, c :: 0 <= r < |supplyLeft| && 0 <= c < |demandLeft| && supplyLeft[r] > 0 && demandLeft[c] > 0 ==> A[r][c] == 0
  }

  /** Overwriting one entry of a vector changes its sum by the difference. */
  lemma {:induction false} SumUpdate(s: seq<int>, k: nat, v: int)
    requires k < |s|
    ensures Sum(s[k := v]) == Sum(s) - s[k] + v
  {
    if k == 0 {
      assert s[k := v][1..] == s[1..];
    } else {
      assert s[k := v][1..] == s[1..][k - 1 := v];
      SumUpdate(s[1..], k - 1, v);
    }
  }

  /** A vector of zeros sums to zero. */
  lemma {:induction false} SumZeros(s: seq<int>)
    requires AllZero(s)
    ensures Sum(s) == 0
  {
    if |s| > 0 {
      SumZeros(s[1..]);
    }
  }

  /** A non-negative vector has a positive sum exactly when one of its entries is positive. */
  lemma {:induction false} PositiveSum(s: seq<int>)
    requires NonNeg(s)
    ensures Sum(s) >= 0
    ensures Sum(s) > 0 <==> exists k :: 0 <= k < |s| && s[k] > 0
  {
    if |s| > 0 {
      PositiveSum(s[1..]);
      if s[0] <= 0 && Sum(s) > 0 {
        var k :| 0 <= k < |s[1..]| && s[1..][k] > 0;
        assert s[k + 1] > 0;
      }
      if Sum(s[1..]) > 0 {
        var k :| 0 <= k < |s[1..]| && s[1..][k] > 0;
        assert s[k + 1] > 0;
      }
      forall k | 0 <= k < |s| && s[k] > 0
        ensures Sum(s) > 0
      {
        if k > 0 {
          assert s[1..][k - 1] > 0;
        }
      }
    }
  }

  /** A non-negative vector whose sum is not positive is all zeros. */
  lemma SettledSum(s: seq<int>)
    requires NonNeg(s) && Sum(s) <= 0
    ensures AllZero(s)
  {
    PositiveSum(s);
  }

  /** Overwriting one entry changes the live count by whether that entry was and is positive. */
  lemma {:induction false} LiveCountUpdate(s: seq<int>, k: nat, v: int)
    requires k < |s|
    ensures LiveCount(s[k := v]) == LiveCount(s) - (if s[k] > 0 then 1 else 0) + (if v > 0 then 1 else 0)
  {
    if k == 0 {
      assert s[k := v][1..] == s[1..];
    } else {
      assert s[k := v][1..] == s[1..][k - 1 := v];
      LiveCountUpdate(s[1..], k - 1, v);
    }
  }

  /** Writing `v` into cell (i, j) of `A`. */
  function Put(A: seq<seq<int>>, i: nat, j: nat, v: int): (B: seq<seq<int>>)
    requires i < |A| && j < |A[i]|
    ensures |B| == |A| && forall r :: 0 <= r < |A| ==> |B[r]| == |A[r]|
    ensures B[i][j] == v
    ensures forall r, c :: 0 <= r < |A| && 0 <= c < |A[r]| && (r != i || c != j) ==> B[r][c] == A[r][c]
  {
    A[i := A[i][j := v]]
  }

  /** The allocation array starts as the zero matrix. */
  lemma StartLedger(supply: seq<int>, demand: seq<int>)
    requires NonNeg(supply) && NonNeg(demand)
    ensures Ledger(Zeros(|supply|, |demand|), supply, demand, supply, demand)
  {
    var Z := Zeros(|supply|, |demand|);
    forall i | 0 <= i < |supply|
      ensures RowTotal(Z, i) == 0
    {
      SumZeros(Z[i]);
    }
    forall j | 0 <= j < |demand|
      ensures ColumnTotal(Z, j) == 0
    {
      SumZeros(Column(Z, j));
    }
  }

  /**
   * The step shared by all four heuristics keeps the ledger: it ships
   * min(supply left, demand left) through an untouched cell (i, j).
   */
  lemma ShipKeepsLedger(A: seq<seq<int>>, supplyLeft: seq<int>, demandLeft: seq<int>,
                        supply: seq<int>, demand: seq<int>, i: nat, j: nat)
    requires Ledger(A, supplyLeft, demandLeft, supply, demand)
    requires i < |supply| && j < |demand| && A[i][j] == 0
    ensures var q := Min(supplyLeft[i], demandLeft[j]);
      Ledger(Put(A, i, j, q), supplyLeft[i := supplyLeft[i] - q], demandLeft[j := demandLeft[j] - q], supply, demand)
  {
    var q := Min(supplyLeft[i], demandLeft[j]);
    var B := Put(A, i, j, q);
    SumUpdate(A[i], j, q);
    SumUpdate(Column(A, j), i, q);
    assert Column(B, j) == Column(A, j)[i := q];
    forall c | 0 <= c < |demand| && c != j
      ensures Column(B, c) == Column(A, c)
    {
    }
    SumUpdate(supplyLeft, i, supplyLeft[i] - q);
    SumUpdate(demandLeft, j, demandLeft[j] - q);
  }

  /**
   * Shipping through a live cell keeps every live cell untouched and exhausts its
   * row or its column, so the number of live rows and columns goes down.
   */
  lemma ShipLive(A: seq<seq<int>>, supplyLeft: seq<int>, demandLeft: seq<int>, i: nat, j: nat, q: int)
    requires IsMatrix(A, |supplyLeft|, |demandLeft|) && NonNeg(supplyLeft) && NonNeg(demandLeft)
    requires Unshipped(A, supplyLeft, demandLeft)
    requires i < |supplyLeft| && j < |demandLeft| && supplyLeft[i] > 0 && demandLeft[j] > 0
    requires q == Min(supplyLeft[i], demandLeft[j])
    ensures q > 0
    ensures Unshipped(Put(A, i, j, q), supplyLeft[i := supplyLeft[i] - q], demandLeft[j := demandLeft[j] - q])
    ensures LiveCount(supplyLeft[i := supplyLeft[i] - q]) + LiveCount(demandLeft[j := demandLeft[j] - q])
            < LiveCount(supplyLeft) + LiveCount(demandLeft)
  {
    LiveCountUpdate(supplyLeft, i, supplyLeft[i] - q);
    LiveCountUpdate(demandLeft, j, demandLeft[j] - q);
  }

  /**
   * Once the supply side or the demand side is used up, the allocation is a
   * shipment that meets that side, and on a balanced problem it is feasible.
   */
  lemma Settle(A: seq<seq<int>>, supplyLeft: seq<int>, demandLeft: seq<int>, supply: seq<int>, demand: seq<int>)
    requires Ledger(A, supplyLeft, demandLeft, supply, demand)
    ensures Shipment(A, supply, demand)
    ensures AllZero(supplyLeft) ==> RowsMet(A, supply)
    ensures AllZero(demandLeft) ==> ColumnsMet(A, demand)
    ensures Balanced(supply, demand) && (AllZero(supplyLeft) || AllZero(demandLeft)) ==> Feasible(A, supply, demand)
  {
    if Balanced(supply, demand) && (AllZero(supplyLeft) || AllZero(demandLeft)) {
      if AllZero(supplyLeft) {
        SumZeros(supplyLeft);
        SettledSum(demandLeft);
      } else {
        SumZeros(demandLeft);
        SettledSum(supplyLeft);
      }
    }
  }

  /**
   * The opening lines of each heuristic (P4.py:12-14, 31-33, 53-55, 74-76):
   * private copies of supply and demand, and a zero allocation of the cost
   * matrix's shape.
   */
  method Start(supply: seq<int>, demand: seq<int>) returns (alloc: array2<int>, supplyLeft: array<int>, demandLeft: array<int>)
    requires NonNeg(supply) && NonNeg(demand)
    ensures fresh(alloc) && fresh(supplyLeft) && fresh(demandLeft) && supplyLeft != demandLeft
    ensures alloc.Length0 == |supply| && alloc.Length1 == |demand|
    ensures supplyLeft[..] == supply && demandLeft[..] == demand
    ensures Grid(alloc) == Zeros(|supply|, |demand|)
    ensures Ledger(Grid(alloc), supplyLeft[..], demandLeft[..], supply, demand)
  {
    var m, n := |supply|, |demand|;
    supplyLeft := new int[m](k requires 0 <= k < m => supply[k]);
    demandLeft := new int[n](k requires 0 <= k < n => demand[k]);
    alloc := new int[m, n]((_, _) => 0);
    assert supplyLeft[..] == supply && demandLeft[..] == demand;
    forall r | 0 <= r < m
      ensures Grid(alloc)[r] == Zeros(m, n)[r]
    {
    }
    assert Grid(alloc) == Zeros(m, n);
    StartLedger(supply, demand);
  }

  /**
   * Lines 18-21, 45-48, 67-70 and 125-128 of P4.py: ship
   * min(supply left, demand left) through cell (i, j) and subtract it from
   * both working copies. The cell must still be empty: the source writes the
   * amount with `=`, so a second visit would lose the first shipment.
   */
  method Ship(alloc: array2<int>, supplyLeft: array<int>, demandLeft: array<int>, i: nat, j: nat,
              ghost supply: seq<int>, ghost demand: seq<int>) returns (q: int)
    requires i < alloc.Length0 && j < alloc.Length1 && supplyLeft != demandLeft
    requires Ledger(Grid(alloc), supplyLeft[..], demandLeft[..], supply, demand)
    requires Grid(alloc)[i][j] == 0
    modifies alloc, supplyLeft, demandLeft
    ensures q == Min(old(supplyLeft[i]), old(demandLeft[j])) && q >= 0
    ensures Grid(alloc) == Put(old(Grid(alloc)), i, j, q)
    ensures supplyLeft[..] == old(supplyLeft[..])[i := old(supplyLeft[i]) - q]
    ensures demandLeft[..] == old(demandLeft[..])[j := old(demandLeft[j]) - q]
    ensures Ledger(Grid(alloc), supplyLeft[..], demandLeft[..], supply, demand)
  {
    ghost var A := Grid(alloc);
    ghost var s, d := supplyLeft[..], demandLeft[..];
    q := Min(supplyLeft[i], demandLeft[j]);
    SetCell(alloc, i, j, q);
    supplyLeft[i] := supplyLeft[i] - q;
    demandLeft[j] := demandLeft[j] - q;
    assert supplyLeft[..] == s[i := s[i] - q];
    assert demandLeft[..] == d[j := d[j] - q];
    ShipKeepsLedger(A, s, d, supply, demand, i, j);
  }

  /** `allocation[i, j] = v`: only cell (i, j) of the allocation changes. */
  method SetCell(alloc: array2<int>, i: nat, j: nat, v: int)
    requires i < alloc.Length0 && j < alloc.Length1
    modifies alloc
    ensures Grid(alloc) == Put(old(Grid(alloc)), i, j, v)
  {
    ghost var A := Grid(alloc);
    alloc[i, j] := v;
    forall r | 0 <= r < alloc.Length0
      ensures Grid(alloc)[r] == Put(A, i, j, v)[r]
    {
    }
  }

  /**
   * The shared step at a cell whose row still has supply and whose column
   * still has demand, as the minimum-cost, minimum-row-cost and Vogel methods
   * choose it: the cell is still empty, and afterwards its row or its column
   * is exhausted.
   */
  method ShipLiveCell(alloc: array2<int>, supplyLeft: array<int>, demandLeft: array<int>, i: nat, j: nat,
                      ghost supply: seq<int>, ghost demand: seq<int>) returns (q: int)
    requires i < alloc.Length0 && j < alloc.Length1 && supplyLeft != demandLeft
    requires Ledger(Grid(alloc), supplyLeft[..], demandLeft[..], supply, demand)
    requires Unshipped(Grid(alloc), supplyLeft[..], demandLeft[..])
    requires supplyLeft[i] > 0 && demandLeft[j] > 0
    modifies alloc, supplyLeft, demandLeft
    ensures q == Min(old(supplyLeft[i]), old(demandLeft[j])) && q > 0
    ensures Grid(alloc) == Put(old(Grid(alloc)), i, j, q)
    ensures supplyLeft[..] == old(supplyLeft[..])[i := old(supplyLeft[i]) - q]
    ensures demandLeft[..] == old(demandLeft[..])[j := old(demandLeft[j]) - q]
    ensures Ledger(Grid(alloc), supplyLeft[..], demandLeft[..], supply, demand)
    ensures Unshipped(Grid(alloc), supplyLeft[..], demandLeft[..])
    ensures LiveCount(supplyLeft[..]) + LiveCount(demandLeft[..]) < old(LiveCount(supplyLeft[..]) + LiveCount(demandLeft[..]))
  {
    ghost var A, s, d := Grid(alloc), supplyLeft[..], demandLeft[..];
    q := Ship(alloc, supplyLeft, demandLeft, i, j, supply, demand);
    ShipLive(A, s, d, i, j, q);
    ghost var s', d' := s[i := s[i] - q], d[j := d[j] - q];
    assert supplyLeft[..] == s' && demandLeft[..] == d';
  }
}
