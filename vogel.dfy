/**
 * Vogel's approximation method (P4.py, `vogels_method`). Each round gives
 * every row and every column a penalty: -1 once it is exhausted, 0 when fewer
 * than two live cells remain on it, otherwise the gap between its two
 * cheapest live costs. The first line with the largest penalty (rows win
 * ties against columns) is served at its cheapest live cell.
 */
module Vogel {
  import opened Transport
  import opened Scan

  /**
   * The list comprehension of P4.py:84 and :96: the entries of `line` whose
   * position still has a positive quantity in `keep`, in order.
   */
  function Filter(line: seq<int>, keep: seq<int>): (r: seq<int>)
    requires |line| == |keep|
    ensures |r| <= |line|
  {
    if |line| == 0 then []
    else
      var rest := Filter(line[1..], keep[1..]);
      if keep[0] > 0 then [line[0]] + rest else rest
  }

  /** The live positions of `keep`, in increasing order (lemma LivePositionsSpec). */
  function LivePositions(keep: seq<int>): (P: seq<nat>)
    ensures forall t :: 0 <= t < |P| ==> P[t] < |keep|
  {
    LivePositionsFrom(keep, 0)
  }

  /** The live positions of `keep`, numbered from `base`. */
  function LivePositionsFrom(keep: seq<int>, base: nat): (P: seq<nat>)
    ensures |P| <= |keep| && forall t :: 0 <= t < |P| ==> base <= P[t] < base + |keep|
  {
    if |keep| == 0 then []
    else (if keep[0] > 0 then [base] else []) + LivePositionsFrom(keep[1..], base + 1)
  }

  /** Every listed position is live, and the list increases. */
  lemma {:induction false} LivePositionsFromLive(keep: seq<int>, base: nat)
    ensures forall t :: 0 <= t < |LivePositionsFrom(keep, base)| ==> keep[LivePositionsFrom(keep, base)[t] - base] > 0
    ensures forall t, u :: 0 <= t < u < |LivePositionsFrom(keep, base)| ==>
              LivePositionsFrom(keep, base)[t] < LivePositionsFrom(keep, base)[u]
  {
    if |keep| > 0 {
      LivePositionsFromLive(keep[1..], base + 1);
      var P' := LivePositionsFrom(keep[1..], base + 1);
      forall t | 0 <= t < |P'|
        ensures keep[P'[t] - base] > 0
      {
        assert keep[1..][P'[t] - (base + 1)] > 0;
      }
      if keep[0] > 0 {
        var P := [base] + P';
        assert LivePositionsFrom(keep, base) == P;
        forall t | 0 <= t < |P|
          ensures keep[P[t] - base] > 0
        {
          if t > 0 {
            assert P[t] == P'[t - 1];
          }
        }
        forall t, u | 0 <= t < u < |P|
          ensures P[t] < P[u]
        {
          assert P[u] == P'[u - 1];
          if t > 0 {
            assert P[t] == P'[t - 1];
          }
        }
      }
    }
  }

  /** Every live position is listed. */
  lemma {:induction false} LivePositionsFromCover(keep: seq<int>, base: nat)
    ensures forall k :: 0 <= k < |keep| && keep[k] > 0 ==> base + k in LivePositionsFrom(keep, base)
  {
    if |keep| > 0 {
      LivePositionsFromCover(keep[1..], base + 1);
      var P' := LivePositionsFrom(keep[1..], base + 1);
      assert LivePositionsFrom(keep, base) == (if keep[0] > 0 then [base] else []) + P';
      forall k | 1 <= k < |keep| && keep[k] > 0
        ensures base + k in P'
      {
        assert keep[1..][k - 1] > 0;
      }
    }
  }

  /**
   * LivePositions lists exactly the positions with a positive quantity, each
   * once, in increasing order.
   */
  lemma LivePositionsSpec(keep: seq<int>)
    ensures forall t :: 0 <= t < |LivePositions(keep)| ==> keep[LivePositions(keep)[t]] > 0
    ensures forall t, u :: 0 <= t < u < |LivePositions(keep)| ==> LivePositions(keep)[t] < LivePositions(keep)[u]
    ensures forall k :: 0 <= k < |keep| && keep[k] > 0 ==> k in LivePositions(keep)
  {
    LivePositionsFromLive(keep, 0);
    LivePositionsFromCover(keep, 0);
  }

  /**
   * The filtered list is the line read at its live positions, in order: one
   * entry per live position, so each cost appears as often as it does at the
   * live positions.
   */
  lemma FilterContents(line: seq<int>, keep: seq<int>)
    requires |line| == |keep|
    ensures |Filter(line, keep)| == |LivePositions(keep)|
    ensures forall t :: 0 <= t < |LivePositions(keep)| ==> Filter(line, keep)[t] == line[LivePositions(keep)[t]]
  {
    FilterContentsFrom(line, keep, 0);
  }

  lemma {:induction false} FilterContentsFrom(line: seq<int>, keep: seq<int>, base: nat)
    requires |line| == |keep|
    ensures |Filter(line, keep)| == |LivePositionsFrom(keep, base)|
    ensures forall t :: 0 <= t < |LivePositionsFrom(keep, base)| ==>
              Filter(line, keep)[t] == line[LivePositionsFrom(keep, base)[t] - base]
  {
    if |line| > 0 {
      FilterContentsFrom(line[1..], keep[1..], base + 1);
      var F, P := Filter(line, keep), LivePositionsFrom(keep, base);
      var F', P' := Filter(line[1..], keep[1..]), LivePositionsFrom(keep[1..], base + 1);
      var d := if keep[0] > 0 then 1 else 0;
      assert P == (if keep[0] > 0 then [base] else []) + P';
      assert F == (if keep[0] > 0 then [line[0]] else []) + F';
      forall t | d <= t < |P|
        ensures F[t] == line[P[t] - base]
      {
        assert F[t] == F'[t - d] && P[t] == P'[t - d];
        assert line[1..][P'[t - d] - (base + 1)] == line[P'[t - d] - base];
      }
    }
  }

  /**
   * Positions of the smallest and the second-smallest entries of `s`: the
   * first is no larger than any entry, the second no larger than any entry
   * other than the first. These are what `sort()` followed by `[0]` and `[1]`
   * reads (lemma SmallestTwoMatchesSort).
   */
  function SmallestTwo(s: seq<int>): (r: (nat, nat))
    requires |s| >= 2
    ensures SmallestPair(s, r.0, r.1)
  {
    if |s| == 2 then
      (if s[1] < s[0] then (1, 0) else (0, 1))
    else
      var last := |s| - 1;
      var (lo, hi) := SmallestTwo(s[..last]);
      if s[last] < s[lo] then (last, lo)
      else if s[last] < s[hi] then (lo, last)
      else (lo, hi)
  }

  /**
   * `s[lo]` is no larger than any entry and `s[hi]` no larger than any entry
   * other than the one at `lo`.
   */
  predicate SmallestPair(s: seq<int>, lo: nat, hi: nat)
  {
    lo < |s| && hi < |s| && lo != hi
    && (forall k :: 0 <= k < |s| ==> s[lo] <= s[k])
    && (forall k :: 0 <= k < |s| && k != lo ==> s[hi] <= s[k])
  }

  predicate Sorted(t: seq<int>)
  {
    forall a, b :: 0 <= a < b < |t| ==> t[a] <= t[b]
  }

  /** The head of a sorted permutation of `s` is any smallest entry of `s`. */
  lemma SortedHead(s: seq<int>, t: seq<int>, lo: nat)
    requires multiset(t) == multiset(s) && Sorted(t)
    requires lo < |s| && forall k :: 0 <= k < |s| ==> s[lo] <= s[k]
    ensures |t| == |s| && t[0] == s[lo]
  {
    assert |t| == |multiset(t)| == |multiset(s)| == |s|;
    assert t[0] in multiset(s);
    var k :| 0 <= k < |s| && s[k] == t[0];
    assert s[lo] in multiset(t);
    var m :| 0 <= m < |t| && t[m] == s[lo];
    assert t[0] <= t[m];
  }

  /** `s` without its entry at `lo`. */
  function DropAt(s: seq<int>, lo: nat): (r: seq<int>)
    requires lo < |s|
    ensures |r| == |s| - 1 && multiset(r) == multiset(s) - multiset{s[lo]}
    ensures forall k :: 0 <= k < lo ==> r[k] == s[k]
    ensures forall k :: lo <= k < |r| ==> r[k] == s[k + 1]
  {
    assert s == s[..lo] + [s[lo]] + s[lo + 1..];
    s[..lo] + s[lo + 1..]
  }

  /**
   * Whatever order a sort leaves equal costs in, its first two entries are
   * the values at any smallest pair of positions, and so at the pair that
   * SmallestTwo picks.
   */
  lemma SmallestTwoMatchesSort(s: seq<int>, t: seq<int>)
    requires |s| >= 2 && multiset(t) == multiset(s) && Sorted(t)
    ensures |t| == |s|
    ensures t[0] == s[SmallestTwo(s).0] && t[1] == s[SmallestTwo(s).1]
  {
    var r := SmallestTwo(s);
    SmallestPairIsSorted(s, t, r.0, r.1);
  }

  lemma SmallestPairIsSorted(s: seq<int>, t: seq<int>, lo: nat, hi: nat)
    requires multiset(t) == multiset(s) && Sorted(t) && SmallestPair(s, lo, hi)
    ensures |t| == |s| && t[0] == s[lo] && t[1] == s[hi]
  {
    SortedHead(s, t, lo);
    // drop one copy of the smallest entry from both sides and look again
    var sRest := DropAt(s, lo);
    var hiRest := if hi < lo then hi else hi - 1;
    SmallestAfterDrop(s, lo, hi);
    SortedTail(t, s, lo);
    SortedHead(sRest, t[1..], hiRest);
  }

  /** Once the smallest entry is dropped, the second smallest is the smallest. */
  lemma SmallestAfterDrop(s: seq<int>, lo: nat, hi: nat)
    requires SmallestPair(s, lo, hi)
    ensures var hiRest := if hi < lo then hi else hi - 1;
      hiRest < |DropAt(s, lo)| && DropAt(s, lo)[hiRest] == s[hi]
      && forall k :: 0 <= k < |DropAt(s, lo)| ==> DropAt(s, lo)[hiRest] <= DropAt(s, lo)[k]
  {
    var sRest := DropAt(s, lo);
    var hiRest := if hi < lo then hi else hi - 1;
    forall k | 0 <= k < |sRest|
      ensures s[hi] <= sRest[k]
    {
      if k < lo {
        assert sRest[k] == s[k] && k != lo;
      } else {
        assert sRest[k] == s[k + 1] && k + 1 != lo;
      }
    }
  }

  /** The tail of a sorted permutation of `s` is a sorted permutation of `s` without its head. */
  lemma SortedTail(t: seq<int>, s: seq<int>, lo: nat)
    requires multiset(t) == multiset(s) && Sorted(t) && lo < |s| && |t| == |s| && t[0] == s[lo]
    ensures Sorted(t[1..]) && multiset(t[1..]) == multiset(DropAt(s, lo))
  {
    assert t == [t[0]] + t[1..];
  }

  /**
   * The penalty of one line (P4.py:81-89 for a row, 93-101 for a column):
   * `left` is the line's own remaining quantity, `costs` its live costs.
   * An exhausted line gets -1, a live one never less than 0.
   */
  function Penalty(left: int, costs: seq<int>): (p: int)
    ensures p == -1 <==> left <= 0
    ensures left > 0 ==> p >= 0
    ensures left > 0 && |costs| < 2 ==> p == 0
  {
    if left <= 0 then -1
    else if |costs| < 2 then 0
    else
      var (lo, hi) := SmallestTwo(costs);
      costs[hi] - costs[lo]
  }

  /**
   * The penalty is what the source computes with `sort()`: for every sorted
   * permutation `t` of the live costs, entry 1 minus entry 0.
   */
  lemma PenaltyIsSortedGap(left: int, costs: seq<int>, t: seq<int>)
    requires left > 0 && |costs| >= 2 && Sorted(t) && multiset(t) == multiset(costs)
    ensures |t| == |costs| && Penalty(left, costs) == t[1] - t[0]
  {
    SmallestTwoMatchesSort(costs, t);
  }

  /**
   * The penalty of a live line read off the line itself: whenever `a` and
   * `b` are two different live positions, `a` no dearer than any live
   * position and `b` no dearer than any live position other than `a`, the
   * penalty is line[b] - line[a]. Repeated costs count: with two cheapest
   * positions of equal cost the penalty is 0.
   */
  lemma PenaltyOfLine(own: int, line: seq<int>, cross: seq<int>, a: nat, b: nat)
    requires own > 0 && |line| == |cross| && a < |line| && b < |line| && a != b
    requires cross[a] > 0 && cross[b] > 0
    requires forall k :: 0 <= k < |line| && cross[k] > 0 ==> line[a] <= line[k]
    requires forall k :: 0 <= k < |line| && cross[k] > 0 && k != a ==> line[b] <= line[k]
    ensures Penalty(own, Filter(line, cross)) == line[b] - line[a]
  {
    var F, P := Filter(line, cross), LivePositions(cross);
    FilterContents(line, cross);
    LivePositionsSpec(cross);
    var ta :| 0 <= ta < |P| && P[ta] == a;
    var tb :| 0 <= tb < |P| && P[tb] == b;
    assert |F| >= 2;
    var (lo, hi) := SmallestTwo(F);
    assert SmallestPair(F, lo, hi);
    assert F[ta] == line[a] && F[tb] == line[b];
    assert F[lo] == line[P[lo]] && F[hi] == line[P[hi]];
    assert F[lo] == line[a] by {
      assert F[lo] <= F[ta];
      assert line[a] <= line[P[lo]];
    }
    if tb == lo {
      assert F[hi] <= F[ta];
    } else if hi == ta {
      assert P[lo] != a;
      assert line[b] <= line[P[lo]];
    } else {
      assert F[hi] <= F[tb];
      assert P[hi] != a;
      assert line[b] <= line[P[hi]];
    }
  }

  /**
   * Penalties of all lines: `lines[k]` is line k's costs, `own[k]` its
   * remaining quantity, `cross` the remaining quantities across it. Rows are
   * `Penalties(cost, supplyLeft, demandLeft)`; columns are
   * `Penalties(Transpose(cost, n), demandLeft, supplyLeft)`.
   */
  function Penalties(lines: seq<seq<int>>, own: seq<int>, cross: seq<int>): (p: seq<int>)
    requires IsMatrix(lines, |own|, |cross|)
    ensures |p| == |own|
    ensures forall k :: 0 <= k < |own| ==> (p[k] == -1 <==> own[k] <= 0) && (own[k] > 0 ==> p[k] >= 0)
  {
    seq(|own|, k requires 0 <= k < |own| => Penalty(own[k], Filter(lines[k], cross)))
  }

  /**
   * The penalty loops of P4.py:79-89 and 91-101, which build the list with
   * `append`.
   */
  method LinePenalties(lines: seq<seq<int>>, own: seq<int>, cross: seq<int>) returns (p: seq<int>)
    requires IsMatrix(lines, |own|, |cross|)
    ensures p == Penalties(lines, own, cross)
  {
    p := [];
    ghost var P := Penalties(lines, own, cross);
    for k := 0 to |own|
      invariant p == P[..k]
    {
      assert P[..k + 1] == P[..k] + [P[k]];
      if own[k] <= 0 {
        p := p + [-1];
        continue;
      }
      var costs := Filter(lines[k], cross);
      assert P[k] == Penalty(own[k], costs);
      if |costs| < 2 {
        p := p + [0];
      } else {
        var (lo, hi) := SmallestTwo(costs);
        p := p + [costs[hi] - costs[lo]];
      }
    }
    assert P[..|own|] == P;
  }

  /** Python's `max` over a non-empty list. */
  function MaxOf(s: seq<int>): (r: int)
    requires |s| > 0
    ensures r in s && forall k :: 0 <= k < |s| ==> s[k] <= r
  {
    if |s| == 1 then s[0]
    else
      var rest := MaxOf(s[1..]);
      if s[0] >= rest then s[0] else rest
  }

  /** Python's `list.index`: the first position holding `x`. */
  function FirstIndex(s: seq<int>, x: int): (k: nat)
    requires x in s
    ensures k < |s| && s[k] == x && forall y :: 0 <= y < k ==> s[y] != x
  {
    if s[0] == x then 0 else 1 + FirstIndex(s[1..], x)
  }

  /** `p.index(max(p))`: the first line carrying the largest penalty. */
  function TopLine(p: seq<int>): (k: nat)
    requires |p| > 0
    ensures k < |p| && p[k] == MaxOf(p) && forall y :: 0 <= y < k ==> p[y] < p[k]
  {
    FirstIndex(p, MaxOf(p))
  }

  /**
   * While some line still has quantity left, the first line with the largest
   * penalty is one of the live lines.
   */
  lemma TopLineIsLive(p: seq<int>, own: seq<int>)
    requires |p| == |own| && exists k :: 0 <= k < |own| && own[k] > 0
    requires forall k :: 0 <= k < |own| ==> (p[k] == -1 <==> own[k] <= 0) && (own[k] > 0 ==> p[k] >= 0)
    ensures MaxOf(p) >= 0 && own[TopLine(p)] > 0
  {
    var k :| 0 <= k < |own| && own[k] > 0;
    assert p[k] >= 0;
  }

  /** Row penalties (P4.py:79-89). */
  function RowPenalties(cost: seq<seq<int>>, supplyLeft: seq<int>, demandLeft: seq<int>): (p: seq<int>)
    requires IsMatrix(cost, |supplyLeft|, |demandLeft|)
    ensures |p| == |supplyLeft|
  {
    Penalties(cost, supplyLeft, demandLeft)
  }

  /** Column penalties (P4.py:91-101): the rows of the transposed costs. */
  function ColumnPenalties(cost: seq<seq<int>>, supplyLeft: seq<int>, demandLeft: seq<int>): (p: seq<int>)
    requires IsMatrix(cost, |supplyLeft|, |demandLeft|)
    ensures |p| == |demandLeft|
  {
    Penalties(Transpose(cost, |demandLeft|), demandLeft, supplyLeft)
  }

  /**
   * The selection rule of P4.py:103-123. If the largest row penalty is at
   * least the largest column penalty, cell (i, j) lies on the first row with
   * that penalty at the cheapest column still in demand; otherwise it lies on
   * the first column with the largest penalty at the cheapest row still in
   * supply.
   */
  predicate VogelChoice(cost: seq<seq<int>>, supplyLeft: seq<int>, demandLeft: seq<int>, i: int, j: int)
    requires IsMatrix(cost, |supplyLeft|, |demandLeft|) && |supplyLeft| > 0 && |demandLeft| > 0
  {
    var rowP, colP := RowPenalties(cost, supplyLeft, demandLeft), ColumnPenalties(cost, supplyLeft, demandLeft);
    if MaxOf(rowP) >= MaxOf(colP) then
      i == TopLine(rowP) && CheapestAt(cost[i], demandLeft, j)
    else
      j == TopLine(colP) && CheapestAt(Column(cost, j), supplyLeft, i)
  }

  /**
   * One round's choice of cell (P4.py:79-123). While both sides have
   * something left, the chosen cell's row still has supply and its column
   * still has demand.
   */
  method VogelSelect(cost: seq<seq<int>>, supplyLeft: seq<int>, demandLeft: seq<int>) returns (i: int, j: int)
    requires IsMatrix(cost, |supplyLeft|, |demandLeft|) && NonNeg(supplyLeft) && NonNeg(demandLeft)
    requires Sum(supplyLeft) > 0 && Sum(demandLeft) > 0
    ensures 0 <= i < |supplyLeft| && 0 <= j < |demandLeft| && supplyLeft[i] > 0 && demandLeft[j] > 0
    ensures VogelChoice(cost, supplyLeft, demandLeft, i, j)
  {
    PositiveSum(supplyLeft);
    PositiveSum(demandLeft);
    var n := |demandLeft|;
    var rowPenalties := LinePenalties(cost, supplyLeft, demandLeft);
    var colPenalties := LinePenalties(Transpose(cost, n), demandLeft, supplyLeft);
    assert rowPenalties == RowPenalties(cost, supplyLeft, demandLeft);
    assert colPenalties == ColumnPenalties(cost, supplyLeft, demandLeft);
    TopLineIsLive(rowPenalties, supplyLeft);
    TopLineIsLive(colPenalties, demandLeft);
    var maxRowPenalty := MaxOf(rowPenalties);
    var maxColPenalty := MaxOf(colPenalties);
    if maxRowPenalty >= maxColPenalty {
      i := TopLine(rowPenalties);
      j := CheapestLive(cost[i], demandLeft);
    } else {
      j := TopLine(colPenalties);
      i := CheapestLive(Column(cost, j), supplyLeft);
    }
  }

  /**
   * Returns a fresh allocation; `steps` counts the rounds. Like the
   * minimum-cost method it stops as soon as one side is used up.
   */
  method Vogel(cost: seq<seq<int>>, supply: seq<int>, demand: seq<int>) returns (alloc: array2<int>, ghost steps: nat)
    requires Problem(cost, supply, demand)
    ensures fresh(alloc) && alloc.Length0 == |supply| && alloc.Length1 == |demand|
    ensures Shipment(Grid(alloc), supply, demand)
    ensures RowsMet(Grid(alloc), supply) || ColumnsMet(Grid(alloc), demand)
    ensures Balanced(supply, demand) ==> Feasible(Grid(alloc), supply, demand)
    ensures steps <= |supply| + |demand|
  {
    var supplyLeft, demandLeft;
    alloc, supplyLeft, demandLeft := Start(supply, demand);
    steps := 0;
    while Sum(supplyLeft[..]) > 0 && Sum(demandLeft[..]) > 0
      invariant supplyLeft.Length == |supply| && demandLeft.Length == |demand|
      invariant alloc.Length0 == |supply| && alloc.Length1 == |demand|
      invariant Ledger(Grid(alloc), supplyLeft[..], demandLeft[..], supply, demand)
      invariant Unshipped(Grid(alloc), supplyLeft[..], demandLeft[..])
      invariant steps + LiveCount(supplyLeft[..]) + LiveCount(demandLeft[..]) <= |supply| + |demand|
      decreases LiveCount(supplyLeft[..]) + LiveCount(demandLeft[..])
    {
      var i, j := VogelSelect(cost, supplyLeft[..], demandLeft[..]);
      var q := ShipLiveCell(alloc, supplyLeft, demandLeft, i, j, supply, demand);
      steps := steps + 1;
    }
    ghost var A, s, d := Grid(alloc), supplyLeft[..], demandLeft[..];
    PositiveSum(s);
    PositiveSum(d);
    if Sum(s) <= 0 {
      SettledSum(s);
    } else {
      SettledSum(d);
    }
    Settle(A, s, d, supply, demand);
  }
}
