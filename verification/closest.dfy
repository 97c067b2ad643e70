/**
  `closestTimeIndexInArray`: the index of the time nearest a target.

  The bisection asks for the time nearest the mean `(a + b) / 2` of two
  timestamps, which need not be a whole number of seconds. Every target is
  therefore passed DOUBLED (`twiceTarget == a + b`, or `2 * t` for a whole
  target `t`), and a candidate `c` is at distance `|2 * c - twiceTarget|`,
  twice the source's `Math.abs(c - time)`: the order of distances, and so the
  answer, is unchanged.
 */
module Closest {

  /** Twice the distance between time `c` and the target. */
  function Dist(c: int, twiceTarget: int): nat {
    if 2 * c >= twiceTarget then 2 * c - twiceTarget else twiceTarget - 2 * c
  }

  /** Among `a[..k]`, `m` is at minimal distance and no earlier index is as close. */
  predicate EarliestClosestIn(a: seq<int>, twiceTarget: int, m: nat, k: nat)
    requires k <= |a|
  {
    && m < k
    && (forall i :: 0 <= i < k ==> Dist(a[m], twiceTarget) <= Dist(a[i], twiceTarget))
    && (forall i :: 0 <= i < m ==> Dist(a[i], twiceTarget) > Dist(a[m], twiceTarget))
  }

  /** The whole array version of `EarliestClosestIn`. */
  predicate IsEarliestClosest(a: seq<int>, twiceTarget: int, m: nat) {
    EarliestClosestIn(a, twiceTarget, m, |a|)
  }

  /** The `for` loop from `candidateIndex == k` on, with `matchIndex == best`;
      the candidate replaces the match only when it is STRICTLY closer. */
  function ScanFrom(a: seq<int>, twiceTarget: int, best: nat, k: nat): (m: nat)
    requires k <= |a|
    requires EarliestClosestIn(a, twiceTarget, best, k)
    decreases |a| - k
    ensures IsEarliestClosest(a, twiceTarget, m)
  {
    if k == |a| then best
    else if Dist(a[k], twiceTarget) < Dist(a[best], twiceTarget) then ScanFrom(a, twiceTarget, k, k + 1)
    else ScanFrom(a, twiceTarget, best, k + 1)
  }

  /** `closestTimeIndexInArray(array, time)` with `twiceTarget == 2 * time`:
      0 for an empty array, otherwise the earliest index of minimal distance. */
  function ClosestIndex(a: seq<int>, twiceTarget: int): (m: nat)
    ensures |a| == 0 ==> m == 0
    ensures |a| > 0 ==> m < |a|
    ensures |a| > 0 ==> forall i :: 0 <= i < |a| ==> Dist(a[m], twiceTarget) <= Dist(a[i], twiceTarget)
    ensures forall i :: 0 <= i < m ==> Dist(a[i], twiceTarget) > Dist(a[m], twiceTarget)
  {
    if |a| == 0 then 0 else ScanFrom(a, twiceTarget, 0, 1)
  }

  /** The earliest closest index is unique, so it is exactly what the scan returns. */
  lemma ClosestIndexIsTheEarliestClosest(a: seq<int>, twiceTarget: int, m: nat)
    requires |a| > 0
    ensures IsEarliestClosest(a, twiceTarget, m) <==> m == ClosestIndex(a, twiceTarget)
  {
  }
}
