# timefind search core, in Dafny

timefind finds when a web page changed. It reads the Wayback Machine timemap of
the page, which lists every archived snapshot. It can narrow that list to a
date range. It then bisects the list with a predicate. The predicate is a
function run on the page DOM, a regex, a plain string, or the user's own y/n
answer. The final script, `timefind.lem.js`, reports the last snapshot that does
not match and the first that does. Its predecessor, `bisect-web-archive.js`, runs
the same search with the opposite convention. There the oldest snapshot must be
"good" and the newest "bad", and it reports the last good and the first bad
snapshot.

This project models the search core of both scripts as pure functions:

- `Text`: literal search behind a regex word boundary `\b`; the capture shape
  `open([^close]+)close` of the timemap regexes; `split`.
- `Closest`: `closestTimeIndexInArray`, with every target doubled. The
  bisection's target `(a + b) / 2` is then an integer, `a + b`, and distances
  are compared exactly.
- `Timemap`: the line filter `/\brel="memento"/`, the `Memento` constructor
  (URL from `/<([^>]+)>/`, date from `/\bdatetime="([^"]+)"/`), and the parse of
  a whole timemap. Failure of either regex is the constructor's TypeError,
  modelled as an error value.
- `DateFilter`: the `--oldest` / `--newest` range, with JavaScript's
  `Array.slice` (negative and out-of-range indices included).
- `Predicates`: the precedence function > regex > string > interactive, and
  the negation under `--inverse`. `-f` counts only when the value `eval`
  made of it is truthy, as `if (cli.args.predicateFunction)` asks.
- `Bisection`: one search engine for both scripts.
  - It takes `pol`, the verdict the oldest end must have: `false` for timefind,
    `true` for bisect-web-archive.
  - Each snapshot has a memo cell (`_matches` / `_good`). The cache records
    which cells are filled and in which order the oracle was consulted.
  - The end checks come first.
  - The `while (currentRange.length > 2)` loop is `Narrow`, over the bounds
    `lo`, `hi` of `currentRange` inside the filtered list.
- `Timefind` and `BisectWebArchive`: the two script bodies, from the timemap
  text to the report.

Three things the code does not decide are parameters:

- Date parsing (`moment(...).unix()`) is `toUnix: string -> int`.
- Fetching, running the user function on the DOM built from a page's URL and
  source, testing the regex and asking the user are the fields of
  `Predicates.World`.
- Whether `eval` turns the `-f` argument into a truthy value is the field
  `truthy` of `Predicates.FunctionArg`.

## Model

| member | source | states |
|---|---|---|
| Text.FirstOccurrence | timefind.lem.js:54 | the result is an occurrence at or after the start position, with none before it; `None` exactly when the literal occurs nowhere from there on |
| Text.Includes | timefind.lem.js:85 | `includes` holds exactly when the pattern occurs at some position of the page source |
| Text.Split | timefind.lem.js:52 | `split("\n")` yields at least one part, and no part contains a newline |
| Text.JoinSplit | timefind.lem.js:52 | joining the parts of a split with the separator gives back the original text |
| Text.SplitJoin | timefind.lem.js:52 | splitting a join of separator-free parts gives back exactly those parts |
| Text.FirstCapture | timefind.lem.js:112-113 | the group is present exactly when some match exists; it is non-empty, free of the closing character, and enclosed by the delimiters in the line |
| Text.FirstCaptureAt | timefind.lem.js:112-113 | a match starting at `i`, with no match starting earlier, determines the group: `exec` takes the leftmost match |
| Closest.ScanFrom | timefind.lem.js:142-151 | the rest of the scan keeps an earliest-closest index: from any prefix's earliest closest, the result is the earliest closest of the whole array |
| Closest.ClosestIndex | timefind.lem.js:139-154 | 0 for an empty array; otherwise an index in range, at minimal distance from the target, with every earlier index strictly farther (ties go to the earliest) |
| Closest.ClosestIndexIsTheEarliestClosest | bisect-web-archive.js:113-128 | an index is the earliest of minimal distance exactly when it is the scan's answer |
| Timemap.IsMementoLine | timefind.lem.js:54 | a line is kept exactly when `rel="memento"` occurs in it behind a word boundary |
| Timemap.ParseMemento | timefind.lem.js:110-116 | `NoUrl` exactly when no `<...>` group exists; `NoDatetime` exactly when the URL exists but no date group does; success exactly when both groups exist; on success the URL is the group of the first `<...>` match and the date the group of the leftmost `\bdatetime="..."` match, both non-empty and free of their closing character, and the time is the parsed date |
| Timemap.MementoLines | timefind.lem.js:53-54 | a line survives the filter exactly when it is among the input lines and is a memento line |
| Timemap.MementoLinesAppend | timefind.lem.js:53-54 | the filter keeps the order of lines: it distributes over concatenation |
| Timemap.ParseAll | timefind.lem.js:55 | success exactly when every line parses; snapshot `k` comes from line `k`; a failure carries the error of the first failing line |
| Timemap.ParseTimemap | timefind.lem.js:48-58 | the snapshot list has one entry per memento line of the split timemap, in order, each the constructor's result on that line |
| Timemap.NoEarlierDatetime | timefind.lem.js:113 | in a served timemap line, no `datetime="` occurs before the date's own |
| Timemap.FormatLineIsMementoLine | timefind.lem.js:54 | a served timemap line passes the line filter |
| Timemap.FormatLineUrl | timefind.lem.js:112 | the URL group of a served line is its URL |
| Timemap.FormatLineDatetime | timefind.lem.js:113 | the date group of a served line is its date |
| Timemap.ParseFormatLine | timefind.lem.js:110-116 | parsing a served line gives back its URL, date and time |
| Timemap.FormatLineHasNoNewline | timefind.lem.js:52 | a served line is a single line of the timemap |
| Timemap.MementoLinesKeepsAll | timefind.lem.js:53-54 | a list of memento lines passes the filter unchanged |
| Timemap.ParseAllSucceeds | timefind.lem.js:55 | when every line parses to the expected snapshot, the parse is exactly the expected list |
| Timemap.ParseRenderedTimemap | timefind.lem.js:48-58 | round trip: a timemap rendered from entries parses back to exactly those entries, in order |
| DateFilter.RelativeIndex | timefind.lem.js:185 | how `slice` reads an index: a negative one counts from the end, and the result is clamped to the array |
| DateFilter.JsSlice | timefind.lem.js:185 | `slice(b, e)` is the run starting at the clamped `b`; its length is the clamped `e` minus the clamped `b`, or 0 when that is not positive; it equals `s[b..e]` for in-range bounds |
| DateFilter.OldestIndex | timefind.lem.js:175-178 | 0 without `--oldest`; otherwise the earliest snapshot closest in time to the bound, and 0 for an empty list |
| DateFilter.NewestIndex | timefind.lem.js:180-183 | `length - 1` without `--newest`; otherwise the earliest snapshot closest in time to the bound |
| DateFilter.Filter | timefind.lem.js:172-189 | as written: the list unchanged without options, otherwise the snapshots from `oldestIndex` up to but excluding `newestIndex` |
| DateFilter.FilterIsWindow | timefind.lem.js:172-189 | the filtered list is a contiguous run of the full list |
| DateFilter.OldestBoundDropsNewest | timefind.lem.js:180-185 | with `--oldest` alone, the filtered list is shorter than the full list and ends before the newest snapshot |
| DateFilter.OldestBoundExample | timefind.lem.js:185 | snapshots at times 0, 10 and 20 with `--oldest 0` filter to the first two |
| DateFilter.FilterInclusive | timefind.lem.js:172-189 | corrected: the snapshots from `oldestIndex` through `newestIndex`, both included; unchanged without options |
| DateFilter.FilterInclusiveKeepsBothEnds | timefind.lem.js:175-185 | the corrected range starts at the snapshot closest to the oldest bound and ends at the one closest to the newest bound, or at the newest snapshot when that bound is absent |
| DateFilter.FilterDropsNewestEnd | timefind.lem.js:185 | the program's filter is the corrected one minus its last snapshot |
| Predicates.Select | timefind.lem.js:69-86 | the chosen predicate is one the options offer (a function only when `-f` evaluated to a truthy value), and it comes first in the order function, regex, string, interactive |
| Predicates.SelectIsUnique | timefind.lem.js:69-86 | any offered predicate of least rank is the chosen one |
| Predicates.InteractiveOnlyWithoutOptions | timefind.lem.js:69-91 | the user is asked exactly when no regex or string is given and `-f` is absent or evaluated to a falsy value (`-f ""`, `-f 0`) |
| Predicates.Execute | timefind.lem.js:68-108 | each predicate kind answers with its collaborator; the user function sees the page's URL as well as its source, as the DOM is built with `{url: url}`; a string predicate holds exactly when the string occurs in the fetched page source |
| Predicates.Evaluate | timefind.lem.js:60-66 | the verdict differs from the raw predicate's answer exactly when `--inverse` is set |
| Predicates.JudgeUnderInverse | bisect-web-archive.js:43-49 | toggling `--inverse` turns every snapshot's verdict (`matches`, `isGood`) into its negation |
| Predicates.InverseFlipsEvaluation | bisect-web-archive.js:43-49 | toggling `--inverse` negates every verdict |
| Predicates.EmptyStringAlwaysMatches | timefind.lem.js:69-85 | with no truthy function and no regex, an empty string predicate is still chosen, and every page matches it |
| Bisection.Ask | timefind.lem.js:118-128 | the answer is the oracle's verdict; a filled cell is returned without consulting the oracle, and an empty one is filled by exactly one consultation |
| Bisection.Midpoint | timefind.lem.js:231-239 | the midpoint lies strictly inside the range, at minimal distance from the mean of the end times, and is the earliest such snapshot |
| Bisection.InteriorTimes | timefind.lem.js:234-236 | the times of `slice(1, -1)` are the range's interior times, shifted by one |
| Bisection.Step | timefind.lem.js:231-248 | one pass judges the midpoint (consulting the oracle only if its cell is empty), keeps `[mid, hi]` when its verdict is the oldest end's and `[lo, mid]` otherwise; the range shrinks and its ends stay on opposite sides |
| Bisection.Narrow | timefind.lem.js:227-249 | the loop ends at an adjacent pair inside the starting range that still straddles the change; the cache stays sound, earlier judgements are kept, and each new one is of an interior snapshot, never twice |
| Bisection.ExitCode | timefind.lem.js:191-221 | the process exits with 0 exactly when a pair is found, and with 1 on every refusal |
| Bisection.Bisect | timefind.lem.js:200-253 | the oldest end is refused exactly when its verdict is wrong, and the newest exactly when the oldest is right but the newest is wrong; otherwise an adjacent straddling pair is found; the ends are judged first, and no snapshot twice |
| Bisection.BisectFound | timefind.lem.js:210-229 | when both ends are right, the search is the loop started from the cache holding just the two end verdicts |
| Bisection.OnlyStraddleIsTheChange | timefind.lem.js:252-253 | when verdicts change exactly once, at `t`, the only adjacent straddling pair is `(t - 1, t)` |
| Bisection.FindsTheChange | timefind.lem.js:210-253 | when verdicts change exactly once, at `t`, the search reports `(t - 1, t)` |
| Bisection.StepUnderNegation | bisect-web-archive.js:195-203 | negating the oracle and the expected polarity together leaves a pass's new range and judged snapshots unchanged |
| Bisection.NarrowUnderNegation | bisect-web-archive.js:183-204 | the same for the whole loop |
| Bisection.BisectUnderNegation | bisect-web-archive.js:168-208 | negating the oracle and the expected polarity together changes neither the outcome nor the judged snapshots |
| Timefind.Run | timefind.lem.js:164-258 | a timemap that fails to parse is reported as such; fewer than two snapshots are refused before any judgement; the oldest matching or the newest not matching is refused; otherwise the answer is an adjacent pair, the last non-matching then the first matching snapshot, with no snapshot judged twice |
| Timefind.ExitStatus | timefind.lem.js:191-221 | a run that read its timemap exits with 0 exactly when at least two snapshots remain, the oldest does not match and the newest does |
| BisectWebArchive.Run | bisect-web-archive.js:131-213 | a parsed, non-empty list is always searched, and an empty one fails before judging anything; the oldest not good or the newest good is refused (always, for a single snapshot); otherwise the answer is an adjacent pair, the last good then the first bad snapshot, with no snapshot judged twice |
| BisectWebArchive.SameAsTimefindInverted | bisect-web-archive.js:168-208 | the predecessor behaves as the final script with `--inverse` toggled: same snapshots judged, same outcome, same pair; below two snapshots neither reports a pair |

## Left out

- Network access, the on-disk request cache and its age check (`getTextAtURLWithCache`, the timemap cache of the predecessor): I/O. The timemap text and the page sources are inputs.
- `--clear-cache` and `--no-cache`: they only touch the disk cache.
- Running a user function on a jsdom DOM, `RegExp.test`, `npm.open` and the interactive prompt: foreign code and I/O. They are the fields of `Predicates.World`.
- Date parsing by `moment`: it is the parameter `toUnix`. An unparsable date (a NaN time) is not modelled.
- All console output (`cli.tell`, chalk, `format.*`) and the Promise machinery. Each evaluation is awaited in turn, so the model is sequential.
- `run-with-tasklemon.js`: it only starts the script in a child process and forwards its exit code.
- Bisection.Ask: verdicts are booleans. A user function that returns `null` leaves the cell empty in the program, so it would be consulted again; that is not modelled.
- Bisection.Narrow: it bounds the judged snapshots by the length of the range, not by its logarithm. The midpoint is chosen by time, not by position, so unevenly spread dates can make the search linear.
- Nothing special is done for lines tagged `rel="first memento"` or `rel="last memento"`. They do not contain `rel="memento"`, so `Timemap.IsMementoLine` drops them, as the program does.
- Timefind.Run and BisectWebArchive.Run: the exit status of a parse failure (an uncaught TypeError) is not modelled. `Bisection.ExitCode` covers the refusals and a found pair.
- Timefind.Run: it filters with the corrected `DateFilter.FilterInclusive`, which keeps the snapshot at `newestIndex`; the program's `slice(oldestIndex, newestIndex)` drops it (see Findings). `DateFilter.Filter` models the program's slice.
- BisectWebArchive.Run: the same as `Timefind.Run`: it filters with `DateFilter.FilterInclusive`, not the program's exclusive slice at line 152.

## Findings

| source | as written | input that shows it | evidently intended | confidence | as-written member | corrected member |
|---|---|---|---|---|---|---|
| timefind.lem.js:185 (also bisect-web-archive.js:152) | `allMementos.slice(oldestIndex, newestIndex)` excludes the snapshot at `newestIndex` | three snapshots at times 0, 10, 20 with `--oldest 0` and no `--newest`: `newestIndex` is 2, so the list keeps only the snapshots at 0 and 10, and the newest snapshot can never be judged | keep the snapshot closest to each bound, `slice(oldestIndex, newestIndex + 1)`; the option help calls `--newest` "the date of the newest snapshot to consider" | high; not executed | DateFilter.OldestBoundExample | DateFilter.FilterInclusiveKeepsBothEnds |
