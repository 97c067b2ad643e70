/**
  The predecessor script, `bisect-web-archive.js`: the same search with the
  opposite convention. The oldest snapshot considered must be "good" (the
  predicate holds) and the newest "bad"; the answer is the last good and the
  first bad snapshot.
 */
module BisectWebArchive {
  import opened Wrappers
  import opened Timemap
  import opened DateFilter
  import opened Predicates
  import opened Bisection
  import Timefind

  /** The script body, with the date range's newest end kept
      (`DateFilter.FilterInclusive`). There is no count check: an empty list makes
      `firstMemento.date` throw before anything is judged, and a single
      snapshot is both ends, judged once, and always refused. */
  function Run(timemap: string, toUnix: string -> int, bounds: Bounds, cfg: Config, world: World): (r: Report)
    ensures ParseTimemap(timemap, toUnix).Failure? ==> r == Failed(ParseTimemap(timemap, toUnix).error)
    ensures ParseTimemap(timemap, toUnix).Success? ==>
      (r == Failed(NoSnapshots) <==> |FilterInclusive(ParseTimemap(timemap, toUnix).value, bounds)| == 0)
    ensures r.Ran? <==>
      ParseTimemap(timemap, toUnix).Success? && |FilterInclusive(ParseTimemap(timemap, toUnix).value, bounds)| > 0
    ensures r.Ran? ==> r.filtered == FilterInclusive(ParseTimemap(timemap, toUnix).value, bounds) && |r.filtered| > 0
    ensures r.Ran? ==> !r.outcome.TooFew?
    ensures r.Ran? && |r.filtered| == 1 ==> !r.outcome.Found? && r.calls == [0]
    ensures r.Ran? ==>
      var first := r.filtered[0];
      var last := r.filtered[|r.filtered| - 1];
      && (r.outcome.OldestWrong? <==> !Evaluate(cfg, world, first.url))
      && (r.outcome.NewestWrong? <==> Evaluate(cfg, world, first.url) && Evaluate(cfg, world, last.url))
      && (r.outcome.Found? <==> Evaluate(cfg, world, first.url) && !Evaluate(cfg, world, last.url))
    ensures r.Ran? && r.outcome.Found? ==>
      && r.outcome.firstAfter == r.outcome.lastBefore + 1 < |r.filtered|
      && Evaluate(cfg, world, r.filtered[r.outcome.lastBefore].url)
      && !Evaluate(cfg, world, r.filtered[r.outcome.firstAfter].url)
    ensures r.Ran? ==> NoDuplicates(r.calls) && |r.calls| <= |r.filtered|
  {
    match ParseTimemap(timemap, toUnix)
    case Failure(e) => Failed(e)
    case Success(all) =>
      var filtered := FilterInclusive(all, bounds);
      if |filtered| == 0 then Failed(NoSnapshots)
      else
        var s := Bisect(filtered, Judge(cfg, world), true);
        Ran(filtered, s.outcome, s.cache.calls)
  }

  /** The predecessor is the final script with `--inverse` flipped, wherever the
      final script gets past its count check: same snapshots judged, same
      outcome, same answer pair. Below two snapshots the predecessor never
      reports a pair either. */
  lemma SameAsTimefindInverted(timemap: string, toUnix: string -> int, bounds: Bounds, cfg: Config, world: World)
    ensures var t := Timefind.Run(timemap, toUnix, bounds, cfg.(inverse := !cfg.inverse), world);
      var b := Run(timemap, toUnix, bounds, cfg, world);
      && (t.Failed? ==> b == t)
      && (t.Ran? && |t.filtered| >= 2 ==> b == t)
      && (t.Ran? && |t.filtered| == 1 ==> b.Ran? && !b.outcome.Found?)
      && (t.Ran? && |t.filtered| == 0 ==> b == Failed(NoSnapshots))
  {
    var cfg' := cfg.(inverse := !cfg.inverse);
    var parsed := ParseTimemap(timemap, toUnix);
    if parsed.Success? {
      var filtered := FilterInclusive(parsed.value, bounds);
      if |filtered| >= 2 {
        var good := Judge(cfg, world);
        var matches := Judge(cfg', world);
        JudgeUnderInverse(cfg, world);
        BisectUnderNegation(filtered, good, matches, true);
      }
    }
  }
}
