/**
  The `--oldest` / `--newest` date range: each bound picks the snapshot whose
  time is closest to it, and the list is cut with JavaScript's `Array.slice`.
 */
module DateFilter {
  import opened Wrappers
  import opened Closest
  import opened Timemap

  /** The parsed `--oldest` and `--newest` options, as Unix times. */
  datatype Bounds = Bounds(oldest: Option<int>, newest: Option<int>)

  /** How `Array.prototype.slice` reads an index into an array of length `n`:
      a negative index counts from the end, and the result is clamped to `[0, n]`. */
  function RelativeIndex(x: int, n: nat): (k: nat)
    ensures k <= n
    ensures 0 <= x <= n ==> k == x
    ensures x < 0 && x + n >= 0 ==> k == x + n
    ensures x + n < 0 ==> k == 0
    ensures x > n ==> k == n
  {
    if x < 0 then (if x + n < 0 then 0 else x + n) else if x > n then n else x
  }

  /** `s.slice(begin, end)`. */
  function JsSlice<T>(s: seq<T>, begin: int, end: int): (r: seq<T>)
    ensures 0 <= begin <= end <= |s| ==> r == s[begin..end]
    ensures 0 <= end <= begin ==> r == []
    ensures RelativeIndex(begin, |s|) + |r| <= |s|
    ensures |r| == if RelativeIndex(begin, |s|) < RelativeIndex(end, |s|)
      then RelativeIndex(end, |s|) - RelativeIndex(begin, |s|) else 0
    ensures forall k :: 0 <= k < |r| ==> r[k] == s[RelativeIndex(begin, |s|) + k]
  {
    var b := RelativeIndex(begin, |s|);
    var e := RelativeIndex(end, |s|);
    if b < e then s[b..e] else []
  }

  /** `oldestIndex`: the snapshot closest to `--oldest`, or the first one. */
  function OldestIndex(times: seq<int>, bounds: Bounds): (a: nat)
    ensures bounds.oldest.None? ==> a == 0
    ensures bounds.oldest.Some? && |times| > 0 ==> IsEarliestClosest(times, 2 * bounds.oldest.value, a)
    ensures bounds.oldest.Some? && |times| == 0 ==> a == 0
  {
    if bounds.oldest.Some? then ClosestIndex(times, 2 * bounds.oldest.value) else 0
  }

  /** `newestIndex`: the snapshot closest to `--newest`, or the last one
      (`length - 1`, which is -1 for an empty list). */
  function NewestIndex(times: seq<int>, bounds: Bounds): (b: int)
    ensures bounds.newest.None? ==> b == |times| - 1
    ensures bounds.newest.Some? && |times| > 0 ==> 0 <= b && IsEarliestClosest(times, 2 * bounds.newest.value, b)
    ensures bounds.newest.Some? && |times| == 0 ==> b == 0
  {
    if bounds.newest.Some? then ClosestIndex(times, 2 * bounds.newest.value) else |times| - 1
  }

  /** The filtering step as the program does it: `allMementos.slice(oldestIndex,
      newestIndex)`, whose end is EXCLUSIVE; without either option the list is kept. */
  function Filter(snaps: seq<Snapshot>, bounds: Bounds): (r: seq<Snapshot>)
    ensures bounds.oldest.None? && bounds.newest.None? ==> r == snaps
    ensures |snaps| == 0 ==> r == []
    ensures bounds.oldest.Some? || bounds.newest.Some? ==>
      var a := OldestIndex(Times(snaps), bounds);
      var b := NewestIndex(Times(snaps), bounds);
      r == if a < b then snaps[a..b] else []
  {
    if bounds.oldest.Some? || bounds.newest.Some? then
      var times := Times(snaps);
      JsSlice(snaps, OldestIndex(times, bounds), NewestIndex(times, bounds))
    else snaps
  }

  /** The filtered list is a contiguous run of the original list, so it stays in time order. */
  lemma FilterIsWindow(snaps: seq<Snapshot>, bounds: Bounds)
    ensures exists a: nat, b: nat :: a <= b <= |snaps| && Filter(snaps, bounds) == snaps[a..b]
  {
    var r := Filter(snaps, bounds);
    if bounds.oldest.None? && bounds.newest.None? {
      assert r == snaps[0..|snaps|];
    } else if |snaps| == 0 {
      assert r == snaps[0..0];
    } else {
      var a := OldestIndex(Times(snaps), bounds);
      var b := NewestIndex(Times(snaps), bounds);
      if a < b {
        assert r == snaps[a..b];
      } else {
        assert r == snaps[0..0];
      }
    }
  }

  /** With `--oldest` alone, the newest snapshot never survives the filter: the
      default end `length - 1` is excluded by `slice`. */
  lemma OldestBoundDropsNewest(snaps: seq<Snapshot>, bounds: Bounds)
    requires |snaps| > 0
    requires bounds.oldest.Some? && bounds.newest.None?
    ensures |Filter(snaps, bounds)| < |snaps|
    ensures forall k :: 0 <= k < |Filter(snaps, bounds)| ==> Filter(snaps, bounds)[k] == snaps[|snaps| - 1 - |Filter(snaps, bounds)| + k]
  {
  }

  /** A concrete run of the above: three snapshots, `--oldest` at the first one,
      and the filtered list loses the snapshot at time 20. */
  lemma OldestBoundExample(s0: Snapshot, s1: Snapshot, s2: Snapshot)
    requires s0.time == 0 && s1.time == 10 && s2.time == 20
    ensures Filter([s0, s1, s2], Bounds(Some(0), None)) == [s0, s1]
  {
    var times := Times([s0, s1, s2]);
    assert times == [0, 10, 20];
    assert OldestIndex(times, Bounds(Some(0), None)) == 0;
  }

  /** The filter with the end bound INCLUDED, `slice(oldestIndex, newestIndex + 1)`:
      the range from the snapshot closest to `--oldest` to the one closest to
      `--newest`, both kept. The searches use this one. */
  function FilterInclusive(snaps: seq<Snapshot>, bounds: Bounds): (r: seq<Snapshot>)
    ensures bounds.oldest.None? && bounds.newest.None? ==> r == snaps
    ensures |snaps| == 0 ==> r == []
    ensures (bounds.oldest.Some? || bounds.newest.Some?) && |snaps| > 0 ==>
      var a := OldestIndex(Times(snaps), bounds);
      var b := NewestIndex(Times(snaps), bounds);
      r == if a <= b then snaps[a..b + 1] else []
  {
    if bounds.oldest.Some? || bounds.newest.Some? then
      var times := Times(snaps);
      JsSlice(snaps, OldestIndex(times, bounds), NewestIndex(times, bounds) + 1)
    else snaps
  }

  /** With the end included, the range runs from the snapshot closest to the
      oldest bound to the snapshot closest to the newest bound (the newest
      snapshot when that bound is absent), both kept. */
  lemma FilterInclusiveKeepsBothEnds(snaps: seq<Snapshot>, bounds: Bounds)
    requires |snaps| > 0
    requires bounds.oldest.Some? || bounds.newest.Some?
    ensures var a := OldestIndex(Times(snaps), bounds);
      var b := NewestIndex(Times(snaps), bounds);
      var r := FilterInclusive(snaps, bounds);
      && (a <= b ==> |r| == b - a + 1 && r[0] == snaps[a] && r[|r| - 1] == snaps[b])
      && (bounds.newest.None? ==> |r| > 0 && r[|r| - 1] == snaps[|snaps| - 1])
      && (a > b ==> r == [])
  {
  }

  /** The program's filter is the intended one minus its last snapshot: the
      snapshot closest to the newest bound is the only one lost. */
  lemma FilterDropsNewestEnd(snaps: seq<Snapshot>, bounds: Bounds)
    requires bounds.oldest.Some? || bounds.newest.Some?
    ensures var r := FilterInclusive(snaps, bounds);
      && (|r| > 0 ==> Filter(snaps, bounds) == r[..|r| - 1])
      && (|r| == 0 ==> Filter(snaps, bounds) == [])
  {
    var r := FilterInclusive(snaps, bounds);
    if |snaps| > 0 {
      var a := OldestIndex(Times(snaps), bounds);
      var b := NewestIndex(Times(snaps), bounds);
      if a <= b {
        assert r[..|r| - 1] == snaps[a..b];
      }
    }
  }
}
