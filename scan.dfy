/**
 * The cheapest-live-entry scan that P4.py writes out three times: along a row
 * in the minimum-row-cost method (lines 59-65), and along a row or along a
 * column in Vogel's method (lines 108-113 and 116-121). The source starts
 * from `min_cost = np.inf` and index -1 and keeps an entry only when it is
 * strictly cheaper, so the first cheapest live entry wins.
 */
module Scan {

  /**
   * Position `k` of a line (a row or a column of the cost matrix) is live,
   * costs no more than any live position, and strictly less than every live
   * position before it.
   */
  predicate CheapestAt(line: seq<int>, left: seq<int>, k: int)
    requires |line| == |left|
  {
    0 <= k < |line| && left[k] > 0
    && (forall x :: 0 <= x < |line| && left[x] > 0 ==> line[k] <= line[x])
    && (forall x :: 0 <= x < k && left[x] > 0 ==> line[k] < line[x])
  }

  /**
   * Scans `line` for the cheapest position whose remaining quantity in `left`
   * is positive. Returns -1, the source's "nothing found" index, exactly when
   * no position is live.
   */
  method CheapestLive(line: seq<int>, left: seq<int>) returns (k: int)
    requires |line| == |left|
    ensures -1 <= k < |line|
    ensures k == -1 <==> forall x :: 0 <= x < |left| ==> left[x] <= 0
    ensures k != -1 ==> CheapestAt(line, left, k)
  {
    k := -1;
    var minCost := 0;  // stands for np.inf while k == -1
    for x := 0 to |line|
      invariant -1 <= k < x
      invariant k == -1 <==> forall y :: 0 <= y < x ==> left[y] <= 0
      invariant k != -1 ==> CheapestAt(line[..x], left[..x], k) && minCost == line[k]
    {
      if left[x] > 0 && (k == -1 || line[x] < minCost) {
        minCost := line[x];
        k := x;
      }
    }
    assert line[..|line|] == line && left[..|left|] == left;
  }

  /**
   * The first cheapest live position is unique: the scan's answer is the only
   * position that satisfies its contract.
   */
  lemma CheapestAtUnique(line: seq<int>, left: seq<int>, k1: int, k2: int)
    requires |line| == |left|
    requires CheapestAt(line, left, k1) && CheapestAt(line, left, k2)
    ensures k1 == k2
  {
  }
}
