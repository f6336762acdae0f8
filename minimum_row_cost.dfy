/**
 * The minimum-row-cost method (P4.py, `minimum_row_cost_method`): rows are
 * served in index order; each row keeps shipping to its cheapest column that
 * still has demand until its own supply is used up.
 */
module MinimumRowCost {
  import opened Transport
  import opened Scan

  /**
   * Returns a fresh allocation; `steps` counts the shipments. The source
   * needs at least as much total demand as total supply: otherwise a row
   * with supply left finds no column (`min_j` stays -1) and the loop never
   * ends.
   */
  method MinimumRowCost(cost: seq<seq<int>>, supply: seq<int>, demand: seq<int>) returns (alloc: array2<int>, ghost steps: nat)
    requires Problem(cost, supply, demand)
    requires Sum(supply) <= Sum(demand)
    ensures fresh(alloc) && alloc.Length0 == |supply| && alloc.Length1 == |demand|
    ensures Shipment(Grid(alloc), supply, demand)
    ensures RowsMet(Grid(alloc), supply)
    ensures Balanced(supply, demand) ==> Feasible(Grid(alloc), supply, demand)
    ensures steps <= |supply| + |demand|
  {
    var supplyLeft, demandLeft;
    alloc, supplyLeft, demandLeft := Start(supply, demand);
    steps := 0;
    for i := 0 to |supply|
      invariant supplyLeft.Length == |supply| && demandLeft.Length == |demand|
      invariant alloc.Length0 == |supply| && alloc.Length1 == |demand|
      invariant Ledger(Grid(alloc), supplyLeft[..], demandLeft[..], supply, demand)
      invariant Unshipped(Grid(alloc), supplyLeft[..], demandLeft[..])
      invariant forall r :: 0 <= r < i ==> supplyLeft[r] == 0
      invariant steps + LiveCount(supplyLeft[..]) + LiveCount(demandLeft[..]) <= |supply| + |demand|
    {
      ghost var ss, ds, cs;
      steps, ss, ds, cs := ServeRow(cost, alloc, supplyLeft, demandLeft, i, supply, demand, steps);
    }
    ghost var A, s, d := Grid(alloc), supplyLeft[..], demandLeft[..];
    assert AllZero(s);
    Settle(A, s, d, supply, demand);
  }

  /**
   * One round of a row's inner loop: with `s` left in the row and demand
   * `d` left, the round ships min(s, d[c]) to the first cheapest live
   * column `c` and leaves `s'` and `d'`.
   */
  predicate RowRound(line: seq<int>, s: int, d: seq<int>, c: int, s': int, d': seq<int>)
    requires |line| == |d|
  {
    s > 0 && CheapestAt(line, d, c) && s' == s - Min(s, d[c]) && d' == d[c := d[c] - Min(s, d[c])]
  }

  /**
   * A row's rounds in order: `ss[t]` and `ds[t]` are the row's supply and the
   * demand left before round t, `cs[t]` the column round t ships to.
   */
  predicate RowTrace(line: seq<int>, ss: seq<int>, ds: seq<seq<int>>, cs: seq<int>)
  {
    |ss| == |cs| + 1 && |ds| == |cs| + 1
    && (forall t :: 0 <= t < |ds| ==> |ds[t]| == |line|)
    && forall t :: 0 <= t < |cs| ==> RowRound(line, ss[t], ds[t], cs[t], ss[t + 1], ds[t + 1])
  }

  /** A trace followed by one more round is a trace. */
  lemma TraceExtend(line: seq<int>, ss: seq<int>, ds: seq<seq<int>>, cs: seq<int>, c: int, s': int, d': seq<int>)
    requires RowTrace(line, ss, ds, cs) && |d'| == |line|
    requires RowRound(line, ss[|cs|], ds[|cs|], c, s', d')
    ensures RowTrace(line, ss + [s'], ds + [d'], cs + [c])
  {
    var ss2, ds2, cs2 := ss + [s'], ds + [d'], cs + [c];
    forall t | 0 <= t < |cs2|
      ensures RowRound(line, ss2[t], ds2[t], cs2[t], ss2[t + 1], ds2[t + 1])
    {
      if t < |cs| {
        assert ss2[t] == ss[t] && ss2[t + 1] == ss[t + 1] && ds2[t] == ds[t] && ds2[t + 1] == ds[t + 1] && cs2[t] == cs[t];
      }
    }
  }

  /**
   * The inner loop of P4.py:58-70: row `i` ships to its cheapest column with
   * demand left until its own supply is used up. The ghost results record
   * the rounds: each ships to the first cheapest live column at that moment.
   * Only row `i` of the allocation and of the supply copy changes; `steps`
   * goes up by one per round.
   */
  method ServeRow(cost: seq<seq<int>>, alloc: array2<int>, supplyLeft: array<int>, demandLeft: array<int>, i: nat,
                  ghost supply: seq<int>, ghost demand: seq<int>, ghost steps: nat)
    returns (ghost steps': nat, ghost ss: seq<int>, ghost ds: seq<seq<int>>, ghost cs: seq<int>)
    requires IsMatrix(cost, |supply|, |demand|) && i < |supply| && Sum(supply) <= Sum(demand)
    requires supplyLeft != demandLeft && alloc.Length0 == |supply| && alloc.Length1 == |demand|
    requires Ledger(Grid(alloc), supplyLeft[..], demandLeft[..], supply, demand)
    requires Unshipped(Grid(alloc), supplyLeft[..], demandLeft[..])
    requires steps + LiveCount(supplyLeft[..]) + LiveCount(demandLeft[..]) <= |supply| + |demand|
    modifies alloc, supplyLeft, demandLeft
    ensures Ledger(Grid(alloc), supplyLeft[..], demandLeft[..], supply, demand)
    ensures Unshipped(Grid(alloc), supplyLeft[..], demandLeft[..])
    ensures supplyLeft[i] == 0 && forall r :: 0 <= r < |supply| && r != i ==> supplyLeft[r] == old(supplyLeft[r])
    ensures forall r :: 0 <= r < |supply| && r != i ==> Grid(alloc)[r] == old(Grid(alloc))[r]
    ensures RowTrace(cost[i], ss, ds, cs)
    ensures ss[0] == old(supplyLeft[i]) && ds[0] == old(demandLeft[..])
    ensures ss[|cs|] == supplyLeft[i] && ds[|cs|] == demandLeft[..]
    ensures steps' == steps + |cs|
    ensures steps' + LiveCount(supplyLeft[..]) + LiveCount(demandLeft[..]) <= |supply| + |demand|
  {
    steps' := steps;
    ss, ds, cs := [supplyLeft[i]], [demandLeft[..]], [];
    while supplyLeft[i] > 0
      invariant Ledger(Grid(alloc), supplyLeft[..], demandLeft[..], supply, demand)
      invariant Unshipped(Grid(alloc), supplyLeft[..], demandLeft[..])
      invariant forall r :: 0 <= r < |supply| && r != i ==> supplyLeft[r] == old(supplyLeft[r])
      invariant forall r :: 0 <= r < |supply| && r != i ==> Grid(alloc)[r] == old(Grid(alloc))[r]
      invariant RowTrace(cost[i], ss, ds, cs)
      invariant ss[0] == old(supplyLeft[i]) && ds[0] == old(demandLeft[..])
      invariant ss[|cs|] == supplyLeft[i] && ds[|cs|] == demandLeft[..]
      invariant steps' == steps + |cs|
      invariant steps' + LiveCount(supplyLeft[..]) + LiveCount(demandLeft[..]) <= |supply| + |demand|
      decreases supplyLeft[i]
    {
      var minJ := ServeRound(cost, alloc, supplyLeft, demandLeft, i, supply, demand);
      TraceExtend(cost[i], ss, ds, cs, minJ, supplyLeft[i], demandLeft[..]);
      ss, ds, cs := ss + [supplyLeft[i]], ds + [demandLeft[..]], cs + [minJ];
      steps' := steps' + 1;
    }
  }

  /**
   * One pass of the inner loop (P4.py:62-70): find the first cheapest column
   * with demand left and ship as much as the row and that column allow. With
   * no less demand than supply, such a column exists while the row has supply.
   */
  method ServeRound(cost: seq<seq<int>>, alloc: array2<int>, supplyLeft: array<int>, demandLeft: array<int>, i: nat,
                    ghost supply: seq<int>, ghost demand: seq<int>) returns (minJ: nat)
    requires IsMatrix(cost, |supply|, |demand|) && i < |supply| && Sum(supply) <= Sum(demand)
    requires supplyLeft != demandLeft && alloc.Length0 == |supply| && alloc.Length1 == |demand|
    requires Ledger(Grid(alloc), supplyLeft[..], demandLeft[..], supply, demand)
    requires Unshipped(Grid(alloc), supplyLeft[..], demandLeft[..])
    requires supplyLeft[i] > 0
    modifies alloc, supplyLeft, demandLeft
    ensures minJ < |demand| && RowRound(cost[i], old(supplyLeft[i]), old(demandLeft[..]), minJ, supplyLeft[i], demandLeft[..])
    ensures Grid(alloc) == Put(old(Grid(alloc)), i, minJ, old(supplyLeft[i]) - supplyLeft[i])
    ensures supplyLeft[..] == old(supplyLeft[..])[i := supplyLeft[i]]
    ensures Ledger(Grid(alloc), supplyLeft[..], demandLeft[..], supply, demand)
    ensures Unshipped(Grid(alloc), supplyLeft[..], demandLeft[..])
    ensures LiveCount(supplyLeft[..]) + LiveCount(demandLeft[..]) < old(LiveCount(supplyLeft[..]) + LiveCount(demandLeft[..]))
  {
    EnoughDemand(supplyLeft[..], demandLeft[..], supply, demand, i);
    var k := CheapestLive(cost[i], demandLeft[..]);
    minJ := k;
    var q := ShipLiveCell(alloc, supplyLeft, demandLeft, i, minJ, supply, demand);
  }

  /**
   * With no less total demand than total supply, a row that still has supply
   * always finds a column that still has demand.
   */
  lemma EnoughDemand(supplyLeft: seq<int>, demandLeft: seq<int>, supply: seq<int>, demand: seq<int>, i: nat)
    requires |supplyLeft| == |supply| && NonNeg(supplyLeft) && NonNeg(demandLeft)
    requires Sum(supply) <= Sum(demand) && Sum(supply) - Sum(supplyLeft) == Sum(demand) - Sum(demandLeft)
    requires i < |supplyLeft| && supplyLeft[i] > 0
    ensures exists j :: 0 <= j < |demandLeft| && demandLeft[j] > 0
  {
    PositiveSum(supplyLeft);
    PositiveSum(demandLeft);
  }
}
