/**
  The search shared by both scripts. Judging a snapshot is an oracle `eval`
  that each snapshot consults at most once (its memo cell). The search is
  parameterised by `pol`, the verdict the OLDEST end must have; the newest
  end must have the other one:
    - timefind: `pol == false` (the oldest must not match, the newest must);
    - bisect-web-archive: `pol == true` (the oldest must be good, the newest bad).
  The current range `currentRange` is the slice `snaps[lo..hi + 1]`.
 */
module Bisection {
  import opened Closest
  import opened Timemap

  /** The memo cells of all snapshots (`_matches` / `_good`), keyed by position
      in the list, and the order in which the oracle was actually consulted. */
  datatype Cache = Cache(memo: map<nat, bool>, calls: seq<nat>)

  predicate NoDuplicates(s: seq<nat>) {
    forall i, j :: 0 <= i < j < |s| ==> s[i] != s[j]
  }

  /** Every filled cell holds the oracle's verdict, a cell is filled exactly when
      the oracle was consulted for it, and no snapshot was judged twice. */
  ghost predicate CacheOk(snaps: seq<Snapshot>, eval: Snapshot -> bool, c: Cache) {
    && (forall i :: i in c.memo ==> i < |snaps| && c.memo[i] == eval(snaps[i]))
    && (forall i :: i in c.memo <==> i in c.calls)
    && NoDuplicates(c.calls)
  }

  /** The `matches` / `isGood` getter: the cell's value if it is filled,
      otherwise one call to the oracle, whose answer fills the cell. */
  function Ask(snaps: seq<Snapshot>, eval: Snapshot -> bool, c: Cache, i: nat): (r: (bool, Cache))
    requires i < |snaps|
    requires CacheOk(snaps, eval, c)
    ensures r.0 == eval(snaps[i])
    ensures CacheOk(snaps, eval, r.1)
    ensures i in r.1.memo
    ensures i in c.memo ==> r.1 == c
    ensures i !in c.memo ==> r.1.calls == c.calls + [i] && r.1.memo == c.memo[i := eval(snaps[i])]
  {
    if i in c.memo then (c.memo[i], c)
    else
      var v := eval(snaps[i]);
      (v, Cache(c.memo[i := v], c.calls + [i]))
  }

  /** The midpoint of the current range `snaps[lo..hi + 1]`, as an index into
      the whole list: `closestTimeIndexInArray` on the times of
      `currentRange.slice(1, -1)` with target `(first + last) / 2`, plus one.
      It lies strictly between the ends, at the smallest distance from the
      mean of the end times, and is the leftmost of the closest. */
  function Midpoint(snaps: seq<Snapshot>, lo: nat, hi: nat): (mid: nat)
    requires lo + 1 < hi < |snaps|
    ensures lo < mid < hi
    ensures forall k :: lo < k < hi ==>
      Dist(snaps[mid].time, snaps[lo].time + snaps[hi].time) <= Dist(snaps[k].time, snaps[lo].time + snaps[hi].time)
    ensures forall k :: lo < k < mid ==>
      Dist(snaps[k].time, snaps[lo].time + snaps[hi].time) > Dist(snaps[mid].time, snaps[lo].time + snaps[hi].time)
  {
    var interior := Times(snaps[lo + 1..hi]);
    var m := ClosestIndex(interior, snaps[lo].time + snaps[hi].time);
    InteriorTimes(snaps, lo, hi);
    lo + 1 + m
  }

  /** The times of `currentRange.slice(1, -1)` are those of the list, shifted by `lo + 1`. */
  lemma InteriorTimes(snaps: seq<Snapshot>, lo: nat, hi: nat)
    requires lo + 1 < hi < |snaps|
    ensures |Times(snaps[lo + 1..hi])| == hi - lo - 1
    ensures forall k :: lo < k < hi ==> Times(snaps[lo + 1..hi])[k - lo - 1] == snaps[k].time
  {
  }

  /** The loop invariant: the range ends lie inside the list, the oldest end has
      the verdict `pol` and the newest end the other one. */
  ghost predicate Straddles(snaps: seq<Snapshot>, eval: Snapshot -> bool, pol: bool, lo: nat, hi: nat) {
    && lo < hi < |snaps|
    && eval(snaps[lo]) == pol
    && eval(snaps[hi]) != pol
  }

  datatype Range = Range(lo: nat, hi: nat, cache: Cache)

  /** One pass of the loop body on a range of more than two snapshots: judge
      the midpoint, then keep `slice(mid)` when its verdict is `pol` (it becomes
      the oldest end) and `slice(0, mid + 1)` otherwise (it becomes the newest
      end). The range shrinks, keeps one of its ends, and still straddles. */
  function Step(snaps: seq<Snapshot>, eval: Snapshot -> bool, pol: bool, lo: nat, hi: nat, c: Cache): (r: Range)
    requires Straddles(snaps, eval, pol, lo, hi)
    requires hi - lo > 1
    requires CacheOk(snaps, eval, c)
    ensures lo <= r.lo < r.hi <= hi && r.hi - r.lo < hi - lo
    ensures r.lo == lo || r.hi == hi
    ensures Straddles(snaps, eval, pol, r.lo, r.hi)
    ensures CacheOk(snaps, eval, r.cache)
    ensures |c.calls| <= |r.cache.calls| <= |c.calls| + 1
    ensures r.cache.calls[..|c.calls|] == c.calls
    ensures forall k :: |c.calls| <= k < |r.cache.calls| ==> lo < r.cache.calls[k] < hi
    ensures var mid := Midpoint(snaps, lo, hi);
      && (eval(snaps[mid]) == pol ==> r.lo == mid && r.hi == hi)
      && (eval(snaps[mid]) != pol ==> r.lo == lo && r.hi == mid)
      && r.cache.calls == (if mid in c.memo then c.calls else c.calls + [mid])
  {
    var mid := Midpoint(snaps, lo, hi);
    var a := Ask(snaps, eval, c, mid);
    if a.0 == pol then Range(mid, hi, a.1) else Range(lo, mid, a.1)
  }

  /** `while (currentRange.length > 2)`, repeating `Step` until the two ends
      are adjacent. */
  function Narrow(snaps: seq<Snapshot>, eval: Snapshot -> bool, pol: bool, lo: nat, hi: nat, c: Cache): (r: Range)
    requires Straddles(snaps, eval, pol, lo, hi)
    requires CacheOk(snaps, eval, c)
    decreases hi - lo
    ensures r.lo + 1 == r.hi
    ensures lo <= r.lo && r.hi <= hi
    ensures Straddles(snaps, eval, pol, r.lo, r.hi)
    ensures CacheOk(snaps, eval, r.cache)
    ensures |c.calls| <= |r.cache.calls| <= |c.calls| + (hi - lo - 1)
    ensures r.cache.calls[..|c.calls|] == c.calls
    ensures forall k :: |c.calls| <= k < |r.cache.calls| ==> lo < r.cache.calls[k] < hi
  {
    if hi - lo + 1 <= 2 then Range(lo, hi, c)
    else
      var s := Step(snaps, eval, pol, lo, hi, c);
      var r := Narrow(snaps, eval, pol, s.lo, s.hi, s.cache);
      ComposeCalls(c.calls, s.cache.calls, r.cache.calls, lo, hi, s.lo, s.hi);
      r
  }

  /** Chaining two stretches of the search: the calls made by the first stay
      a prefix, and every later call lies inside the outer range. */
  lemma ComposeCalls(a: seq<nat>, b: seq<nat>, c: seq<nat>, lo: int, hi: int, lo2: int, hi2: int)
    requires |a| <= |b| <= |c|
    requires b[..|a|] == a && c[..|b|] == b
    requires lo <= lo2 && hi2 <= hi
    requires forall k :: |a| <= k < |b| ==> lo < b[k] < hi
    requires forall k :: |b| <= k < |c| ==> lo2 < c[k] < hi2
    ensures c[..|a|] == a
    ensures forall k :: |a| <= k < |c| ==> lo < c[k] < hi
  {
    assert forall k :: 0 <= k < |b| ==> c[k] == b[k];
  }

  /** How a search ends. */
  datatype Outcome =
    | Found(lastBefore: nat, firstAfter: nat)  // the adjacent pair straddling the change
    | OldestWrong                              // the oldest snapshot already has the newer verdict
    | NewestWrong                              // the newest snapshot still has the older verdict
    | TooFew(count: nat)                       // fewer than two snapshots to search

  /** The process exit status an outcome leads to. */
  function ExitCode(o: Outcome): (code: nat)
    ensures code == 0 <==> o.Found?
    ensures code == 1 <==> !o.Found?
  {
    if o.Found? then 0 else 1
  }

  datatype Search = Search(outcome: Outcome, cache: Cache)

  /** A whole run: the timemap could not be read, or the search ran over
      `filtered` with the given outcome, consulting the oracle for the
      snapshots at positions `calls`, in that order. */
  datatype Report = Failed(error: ParseError) | Ran(filtered: seq<Snapshot>, outcome: Outcome, calls: seq<nat>)

  /** "Checking extremities" and the search: the oldest end is judged first and
      the run stops if its verdict is not `pol`; then the newest end, stopping if
      its verdict is `pol`; then the range narrows to an adjacent pair. */
  function Bisect(snaps: seq<Snapshot>, eval: Snapshot -> bool, pol: bool): (r: Search)
    requires |snaps| >= 1
    ensures r.outcome.OldestWrong? <==> eval(snaps[0]) != pol
    ensures r.outcome.NewestWrong? <==> eval(snaps[0]) == pol && eval(snaps[|snaps| - 1]) == pol
    ensures r.outcome.Found? <==> eval(snaps[0]) == pol && eval(snaps[|snaps| - 1]) != pol
    ensures r.outcome.Found? ==>
      && r.outcome.firstAfter == r.outcome.lastBefore + 1
      && Straddles(snaps, eval, pol, r.outcome.lastBefore, r.outcome.firstAfter)
    ensures CacheOk(snaps, eval, r.cache)
    ensures r.outcome.OldestWrong? ==> r.cache.calls == [0]
    ensures r.outcome.NewestWrong? ==> r.cache.calls == (if |snaps| == 1 then [0] else [0, |snaps| - 1])
    ensures r.outcome.Found? ==>
      && 2 <= |r.cache.calls| <= |snaps|
      && r.cache.calls[..2] == [0, |snaps| - 1]
      && forall k :: 2 <= k < |r.cache.calls| ==> 0 < r.cache.calls[k] < |snaps| - 1
  {
    var first := Ask(snaps, eval, Cache(map[], []), 0);
    if first.0 != pol then Search(OldestWrong, first.1)
    else
      var last := Ask(snaps, eval, first.1, |snaps| - 1);
      if last.0 == pol then Search(NewestWrong, last.1)
      else
        assert last.1.calls == [0, |snaps| - 1];
        var r := Narrow(snaps, eval, pol, 0, |snaps| - 1, last.1);
        assert r.cache.calls[..2] == [0, |snaps| - 1];
        Search(Found(r.lo, r.hi), r.cache)
  }

  /** When the verdicts change exactly once along the list, at position `t`,
      the only adjacent pair that straddles is the one around `t`. */
  lemma OnlyStraddleIsTheChange(snaps: seq<Snapshot>, eval: Snapshot -> bool, pol: bool, t: nat, lo: nat, hi: nat)
    requires 0 < t < |snaps|
    requires forall i :: 0 <= i < t ==> eval(snaps[i]) == pol
    requires forall i :: t <= i < |snaps| ==> eval(snaps[i]) != pol
    requires Straddles(snaps, eval, pol, lo, hi) && lo + 1 == hi
    ensures lo == t - 1 && hi == t
  {
  }

  /** When the verdicts change exactly once along the list (a run of `pol`
      followed by a run of the other verdict), the search reports exactly the
      two snapshots on either side of the change. */
  lemma FindsTheChange(snaps: seq<Snapshot>, eval: Snapshot -> bool, pol: bool, t: nat)
    requires 0 < t < |snaps|
    requires forall i :: 0 <= i < t ==> eval(snaps[i]) == pol
    requires forall i :: t <= i < |snaps| ==> eval(snaps[i]) != pol
    ensures Bisect(snaps, eval, pol).outcome == Found(t - 1, t)
  {
    var o := Bisect(snaps, eval, pol).outcome;
    assert eval(snaps[0]) == pol && eval(snaps[|snaps| - 1]) != pol;
    OnlyStraddleIsTheChange(snaps, eval, pol, t, o.lastBefore, o.firstAfter);
  }

  /** Negating the oracle and the expected polarity together leaves one loop
      pass unchanged: same midpoint, same half kept, same calls. */
  lemma StepUnderNegation(snaps: seq<Snapshot>, eval: Snapshot -> bool, neg: Snapshot -> bool, pol: bool, lo: nat, hi: nat, c: Cache, c': Cache)
    requires Straddles(snaps, eval, pol, lo, hi)
    requires hi - lo > 1
    requires forall s :: neg(s) == !eval(s)
    requires CacheOk(snaps, eval, c) && CacheOk(snaps, neg, c')
    requires c.calls == c'.calls
    ensures var r := Step(snaps, eval, pol, lo, hi, c);
      var r' := Step(snaps, neg, !pol, lo, hi, c');
      r.lo == r'.lo && r.hi == r'.hi && r.cache.calls == r'.cache.calls
  {
    var mid := Midpoint(snaps, lo, hi);
    var a := Ask(snaps, eval, c, mid);
    var a' := Ask(snaps, neg, c', mid);
    assert mid in c.memo <==> mid in c'.memo;
    assert a.1.calls == a'.1.calls;
  }

  /** The same for the whole loop. */
  lemma {:induction false} NarrowUnderNegation(snaps: seq<Snapshot>, eval: Snapshot -> bool, neg: Snapshot -> bool, pol: bool, lo: nat, hi: nat, c: Cache, c': Cache)
    requires Straddles(snaps, eval, pol, lo, hi)
    requires forall s :: neg(s) == !eval(s)
    requires CacheOk(snaps, eval, c) && CacheOk(snaps, neg, c')
    requires c.calls == c'.calls
    decreases hi - lo
    ensures var r := Narrow(snaps, eval, pol, lo, hi, c);
      var r' := Narrow(snaps, neg, !pol, lo, hi, c');
      r.lo == r'.lo && r.hi == r'.hi && r.cache.calls == r'.cache.calls
  {
    if hi - lo > 1 {
      StepUnderNegation(snaps, eval, neg, pol, lo, hi, c, c');
      var s := Step(snaps, eval, pol, lo, hi, c);
      var s' := Step(snaps, neg, !pol, lo, hi, c');
      NarrowUnderNegation(snaps, eval, neg, pol, s.lo, s.hi, s.cache, s'.cache);
    }
  }

  /** The cache once the oldest end (index 0) was judged `pol` and the newest
      (index `n`) the other verdict. */
  function EndsCache(n: nat, pol: bool): Cache {
    Cache(map[0 := pol, n := !pol], [0, n])
  }

  /** The cache after judging both ends of a straddling list. */
  lemma EndsCached(snaps: seq<Snapshot>, eval: Snapshot -> bool, pol: bool)
    requires |snaps| >= 1
    requires eval(snaps[0]) == pol && eval(snaps[|snaps| - 1]) != pol
    ensures var n := |snaps| - 1;
      && Straddles(snaps, eval, pol, 0, n)
      && CacheOk(snaps, eval, EndsCache(n, pol))
  {
  }

  /** When the two ends straddle, the search is the loop started from the
      cache that holds exactly the two end verdicts. */
  lemma BisectFound(snaps: seq<Snapshot>, eval: Snapshot -> bool, pol: bool)
    requires |snaps| >= 1
    requires eval(snaps[0]) == pol && eval(snaps[|snaps| - 1]) != pol
    ensures var n := |snaps| - 1;
      var r := Narrow(snaps, eval, pol, 0, n, EndsCache(n, pol));
      Bisect(snaps, eval, pol) == Search(Found(r.lo, r.hi), r.cache)
  {
    var n := |snaps| - 1;
    var first := Ask(snaps, eval, Cache(map[], []), 0);
    var last := Ask(snaps, eval, first.1, n);
    assert last.1 == EndsCache(n, pol);
  }

  /** Negating the oracle and the expected polarity together changes neither
      the outcome nor which snapshots get judged: this is how the two scripts'
      opposite conventions relate. */
  lemma BisectUnderNegation(snaps: seq<Snapshot>, eval: Snapshot -> bool, neg: Snapshot -> bool, pol: bool)
    requires |snaps| >= 1
    requires forall s :: neg(s) == !eval(s)
    ensures Bisect(snaps, neg, !pol).outcome == Bisect(snaps, eval, pol).outcome
    ensures Bisect(snaps, neg, !pol).cache.calls == Bisect(snaps, eval, pol).cache.calls
  {
    if eval(snaps[0]) == pol && eval(snaps[|snaps| - 1]) != pol {
      var n := |snaps| - 1;
      BisectFound(snaps, eval, pol);
      BisectFound(snaps, neg, !pol);
      EndsCached(snaps, eval, pol);
      EndsCached(snaps, neg, !pol);
      NarrowUnderNegation(snaps, eval, neg, pol, 0, n, EndsCache(n, pol), EndsCache(n, !pol));
    }
  }
}
