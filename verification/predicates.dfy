/**
  How a snapshot is judged: `executePredicateForURL` picks one predicate kind
  from the options, and `evaluateURL` negates its answer under `--inverse`.
  Fetching a page, running a user function on its DOM, testing a regex and
  asking the user are collaborators this model cannot see; `World` holds them
  as plain functions.
 */
module Predicates {
  import opened Wrappers
  import opened Text
  import opened Timemap

  /** The argument of `-f` as the option parser hands it over: the parser
      runs it through `eval`, and the program later only asks whether the
      value it produced is truthy (`-f ""` or `-f 0` gives a falsy value). */
  datatype FunctionArg = FunctionArg(source: string, truthy: bool)

  /** The predicate options: `-f` (a function), `-r` (a regex),
      `-s` or the second positional argument (a string), and `-i`. */
  datatype Config = Config(
    userFunction: Option<FunctionArg>,
    regex: Option<string>,
    literal: Option<string>,
    inverse: bool)

  /** The four predicate kinds. */
  datatype Predicate = ByFunction(source: string) | ByRegex(pattern: string) | ByString(text: string) | Interactive

  /** Position in the order of precedence: function, regex, string, then asking the user. */
  function Rank(p: Predicate): nat {
    match p
    case ByFunction(_) => 0
    case ByRegex(_) => 1
    case ByString(_) => 2
    case Interactive => 3
  }

  /** The predicates the options make available; asking the user always is. */
  function Offered(cfg: Config): set<Predicate> {
    (if HasFunction(cfg) then {ByFunction(cfg.userFunction.value.source)} else {})
    + (if cfg.regex.Some? then {ByRegex(cfg.regex.value)} else {})
    + (if cfg.literal.Some? then {ByString(cfg.literal.value)} else {})
    + {Interactive}
  }

  /** `if (cli.args.predicateFunction)`: `-f` was given and evaluated to a
      truthy value. A regex option is a `RegExp` object, which is always truthy. */
  predicate HasFunction(cfg: Config) {
    cfg.userFunction.Some? && cfg.userFunction.value.truthy
  }

  /** The `if / else if` chain of `executePredicateForURL`: the offered
      predicate that comes first in the order of precedence. */
  function Select(cfg: Config): (p: Predicate)
    ensures p in Offered(cfg)
    ensures forall q :: q in Offered(cfg) ==> Rank(p) <= Rank(q)
  {
    if HasFunction(cfg) then ByFunction(cfg.userFunction.value.source)
    else if cfg.regex.Some? then ByRegex(cfg.regex.value)
    else if cfg.literal.Some? then ByString(cfg.literal.value)
    else Interactive
  }

  /** Only one offered predicate has the smallest rank, so precedence decides alone. */
  lemma SelectIsUnique(cfg: Config, p: Predicate)
    requires p in Offered(cfg)
    requires forall q :: q in Offered(cfg) ==> Rank(p) <= Rank(q)
    ensures p == Select(cfg)
  {
  }

  /** The user is asked exactly when no regex or string is given and `-f` is
      either absent or evaluated to a falsy value. */
  lemma InteractiveOnlyWithoutOptions(cfg: Config)
    ensures Select(cfg) == Interactive
        <==> (cfg.userFunction.None? || !cfg.userFunction.value.truthy) && cfg.regex.None? && cfg.literal.None?
  {
  }

  /** The collaborators: the text at a URL, a user function run on the DOM
      built from a page's URL and source, a regex test on a page source, and
      the user's y/n answer. */
  datatype World = World(
    fetch: string -> string,
    runFunction: (string, string, string) -> bool,
    testRegex: (string, string) -> bool,
    ask: string -> bool)

  /** `executePredicateForURL(url)`. A string predicate is JavaScript's
      `includes`: plain, case-sensitive containment in the page source. */
  function Execute(cfg: Config, world: World, url: string): (r: bool)
    ensures Select(cfg).ByString? ==> (r <==> exists i: nat :: Occurs(world.fetch(url), Select(cfg).text, false, i))
    ensures Select(cfg).ByFunction? ==> r == world.runFunction(Select(cfg).source, url, world.fetch(url))
    ensures Select(cfg).ByRegex? ==> r == world.testRegex(Select(cfg).pattern, world.fetch(url))
    ensures Select(cfg) == Interactive ==> r == world.ask(url)
  {
    match Select(cfg)
    case ByFunction(f) => world.runFunction(f, url, world.fetch(url))
    case ByRegex(re) => world.testRegex(re, world.fetch(url))
    case ByString(text) => Includes(world.fetch(url), text)
    case Interactive => world.ask(url)
  }

  /** `evaluateURL(url)`: the predicate's answer, negated under `--inverse`. */
  function Evaluate(cfg: Config, world: World, url: string): (r: bool)
    ensures r != Execute(cfg, world, url) <==> cfg.inverse
  {
    if cfg.inverse then !Execute(cfg, world, url) else Execute(cfg, world, url)
  }

  /** `_getEvaluation` behind `Memento.matches` / `Memento.isGood`: a snapshot
      is judged by `evaluateURL` on its URL alone. */
  function Judge(cfg: Config, world: World): (j: Snapshot -> bool)
    ensures forall s :: j(s) == Evaluate(cfg, world, s.url)
  {
    (s: Snapshot) => Evaluate(cfg, world, s.url)
  }

  /** Flipping `--inverse` flips every verdict and changes nothing else. */
  lemma InverseFlipsEvaluation(cfg: Config, world: World, url: string)
    ensures Evaluate(cfg.(inverse := !cfg.inverse), world, url) == !Evaluate(cfg, world, url)
  {
  }

  /** Toggling `--inverse` turns every snapshot's verdict into its negation. */
  lemma JudgeUnderInverse(cfg: Config, world: World)
    ensures forall s :: Judge(cfg.(inverse := !cfg.inverse), world)(s) == !Judge(cfg, world)(s)
  {
    forall s: Snapshot
      ensures Judge(cfg.(inverse := !cfg.inverse), world)(s) == !Judge(cfg, world)(s)
    {
      InverseFlipsEvaluation(cfg, world, s.url);
    }
  }

  /** An empty string predicate is still a string predicate, and every page contains it. */
  lemma EmptyStringAlwaysMatches(cfg: Config, world: World, url: string)
    requires !HasFunction(cfg) && cfg.regex.None? && cfg.literal == Some("")
    ensures Execute(cfg, world, url)
  {
    assert Occurs(world.fetch(url), "", false, 0);
  }
}
