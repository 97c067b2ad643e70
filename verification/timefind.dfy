/**
  The final script, `timefind.lem.js`: find the first snapshot of a page that
  matches a predicate. The oldest snapshot considered must not match and the
  newest must.
 */
module Timefind {
  import opened Wrappers
  import opened Timemap
  import opened DateFilter
  import opened Predicates
  import opened Bisection

  /** The script body after `--clear-cache`: read the timemap, apply the date
      range (with its newest end kept, `DateFilter.FilterInclusive`), refuse
      fewer than two snapshots before judging any, check the extremities, bisect. */
  function Run(timemap: string, toUnix: string -> int, bounds: Bounds, cfg: Config, world: World): (r: Report)
    ensures r.Failed? <==> ParseTimemap(timemap, toUnix).Failure?
    ensures r.Failed? ==> r.error == ParseTimemap(timemap, toUnix).error
    ensures r.Ran? ==> r.filtered == FilterInclusive(ParseTimemap(timemap, toUnix).value, bounds)
    ensures r.Ran? ==> (r.outcome.TooFew? <==> |r.filtered| < 2)
    ensures r.Ran? && r.outcome.TooFew? ==> r.outcome.count == |r.filtered| && r.calls == []
    ensures r.Ran? && |r.filtered| >= 2 ==>
      var first := r.filtered[0];
      var last := r.filtered[|r.filtered| - 1];
      && (r.outcome.OldestWrong? <==> Evaluate(cfg, world, first.url))
      && (r.outcome.NewestWrong? <==> !Evaluate(cfg, world, first.url) && !Evaluate(cfg, world, last.url))
      && (r.outcome.Found? <==> !Evaluate(cfg, world, first.url) && Evaluate(cfg, world, last.url))
    ensures r.Ran? && r.outcome.Found? ==>
      && r.outcome.firstAfter == r.outcome.lastBefore + 1 < |r.filtered|
      && !Evaluate(cfg, world, r.filtered[r.outcome.lastBefore].url)
      && Evaluate(cfg, world, r.filtered[r.outcome.firstAfter].url)
    ensures r.Ran? ==> NoDuplicates(r.calls) && |r.calls| <= |r.filtered|
  {
    match ParseTimemap(timemap, toUnix)
    case Failure(e) => Failed(e)
    case Success(all) =>
      var filtered := FilterInclusive(all, bounds);
      if |filtered| < 2 then Ran(filtered, TooFew(|filtered|), [])
      else
        var s := Bisect(filtered, Judge(cfg, world), false);
        Ran(filtered, s.outcome, s.cache.calls)
  }

  /** The exit status of a run that read its timemap: 0 exactly when at
      least two snapshots remain, the oldest does not match and the newest
      does; every refusal (`process.exit(1)`) gives 1. */
  lemma ExitStatus(timemap: string, toUnix: string -> int, bounds: Bounds, cfg: Config, world: World)
    ensures var r := Run(timemap, toUnix, bounds, cfg, world);
      r.Ran? ==> (ExitCode(r.outcome) == 0 <==>
        && |r.filtered| >= 2
        && !Evaluate(cfg, world, r.filtered[0].url)
        && Evaluate(cfg, world, r.filtered[|r.filtered| - 1].url))
  {
  }
}
