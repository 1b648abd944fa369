# Rubik's cube timer: timing and statistics core

A Dafny model of the non-DOM logic of `rubiks.timer.js`, a browser timer
for speedcubing. The script has four small parts, and each is a module here:

- `RunLog` (`run_log.dfy`) models `TimerLog`, the log of completed runs. The
  class `TimerLog` keeps the runs, their running total and the two extremes
  the source calls `fastest` and `slowest`. `Trimmed` is the loop that totals
  the runs left after the extremes are taken out. Spec functions (`Sum`,
  `FastestOf`, `SlowestOf`, `KeptRuns`) say what each field and result must
  be. Lemmas give their meaning: `fastest` is the largest positive run,
  `slowest` is the smallest non-zero run, and `trimmed` drops runs by value.
- `Stopwatch` (`stopwatch.dfy`) models `Timer`, a stopwatch with the state
  `running`, `startDate` and `endDate`. The host clock becomes a `now`
  parameter. Each firing of the host's repeating timer becomes a call to
  `Tick`. The ghost set `Scheduled` holds the repeating timers the host
  still fires, so a timer left behind by a second `start` can be seen.
- `TimeFormat` (`time_format.dfy`) models `convert`, `format` and `extend`.
  `convert` splits a millisecond count into fields. `format` writes each
  configured field in decimal, pads it on the left with '0' to `digits`
  characters, then removes `trim` characters from the end. `extend` is the
  shallow copy that lays a per-call override over the defaults.
- `ClassList` (`class_list.dfy`) models `addClass` and `removeClass` on the
  text of a class attribute. The text is split at runs of white space, the
  loop keeps the non-empty tokens other than the named class, and the
  tokens are joined with single spaces.

`Wrappers` (`wrappers.dfy`) holds `Option`, which stands for JavaScript's `null`.

Behaviour of `rubiks.timer.js` that the model keeps as the code has it:

- Run times are integers and can be negative. `stop()` before the first
  tick computes `null - startDate`, and `null` counts as 0, so the result
  is minus the start timestamp. That value is what the key handler passes
  to `add`. The `>=` against a missing `fastest` (read as 0), together
  with the truthiness guard in the setter, makes `fastest` the largest
  POSITIVE run. The `<=` with the same guard makes `slowest` the smallest
  NON-ZERO run. Neither extreme is ever 0.
- `fastest` holds the largest run and `slowest` the smallest, the reverse
  of what the names suggest.
- `endDate` is set while the timer runs: every tick writes it.
- Formatting 61234 ms gives "23" for the ms field: the field is 234, which
  is padded to "234" and cut to "23" (`FormatExample`).
- `trimmed()` over runs 100, 100, 500 counts nothing: both copies of 100
  are `slowest` and 500 is `fastest` (`DuplicateExtremeExample`).
- A format entry that leaves out `trim` writes the empty string, and one
  that leaves out `digits` is not padded; an override entry is not merged
  with the default one (`PartialOverrideExample`).

## Model

| member | source | states |
|---|---|---|
| `RunLog.TimerLog.constructor` | rubiks.timer.js:6-10 | a new log has no runs, a total of 0 and no extremes, and satisfies the log invariant |
| `RunLog.TimerLog.Add` | rubiks.timer.js:16-25 | appends the run, adds it to the total, and keeps the invariant: total = sum of the runs, extremes = what the comparisons and truthiness guards yield over all runs in order |
| `RunLog.TimerLog.Count` | rubiks.timer.js:29-31 | the count is the number of runs recorded, which `Add` raises by one per call |
| `RunLog.TimerLog.Fastest` | rubiks.timer.js:35-37 | `fastest()` is missing exactly when no run is positive; otherwise it is a recorded run, positive, and at least every run |
| `RunLog.TimerLog.Slowest` | rubiks.timer.js:41-43 | `slowest()` is missing exactly when every run is 0; otherwise it is a recorded non-zero run and at most every non-zero run |
| `RunLog.TimerLog.TotalTime` | rubiks.timer.js:47-49 | `totalTime()` is the sum of all runs added |
| `RunLog.TimerLog.Trimmed` | rubiks.timer.js:55-68 | the loop's time and count are the sum and number of the runs it counts: all runs below three runs, otherwise the runs equal to neither extreme |
| `RunLog.FastestIsLargestPositive` | rubiks.timer.js:18-20 | folding the `>=` rule and the truthiness guard over the runs gives None iff no run is positive, otherwise the largest run |
| `RunLog.SlowestIsSmallestNonZero` | rubiks.timer.js:21-23 | folding the `<=` rule and the truthiness guard over the runs gives None iff every run is 0, otherwise the smallest non-zero run |
| `RunLog.KeptRunsMembers` | rubiks.timer.js:58-63 | a value is among the counted runs iff it was added and passes the loop's test; there are no more counted runs than runs |
| `RunLog.KeptRunsStep` | rubiks.timer.js:59-62 | one more loop iteration adds the run to the counted runs and to the time exactly when the loop's test passes |
| `RunLog.FewRunsKeepAll` | rubiks.timer.js:59 | with fewer than three runs every run is counted |
| `RunLog.TrimmedFewRuns` | rubiks.timer.js:55-67 | with fewer than three runs `trimmed()` returns the log's total and count |
| `RunLog.KeptRunsByValue` | rubiks.timer.js:59 | from three runs on, every copy of either extreme is dropped and every other value keeps its multiplicity |
| `RunLog.TrimmedTimeBounded` | rubiks.timer.js:55-67 | when no run is negative, the trimmed time lies between 0 and the total |
| `RunLog.DroppedRunShortens` | rubiks.timer.js:59 | one run that fails the loop's test makes the counted runs fewer than the runs |
| `RunLog.TwoDroppedRunsShorten` | rubiks.timer.js:59 | two runs at different positions that fail the test make the counted runs at least two fewer |
| `RunLog.ExtremesAreDropped` | rubiks.timer.js:55-67 | with three or more runs and one non-zero, `slowest` is set and the count drops by at least one, and by at least two when `fastest` is set and different |
| `RunLog.InvertedNamingExample` | rubiks.timer.js:16-23 | after runs 500, 200, 800, `fastest` is 800 and `slowest` is 200 |
| `RunLog.DuplicateExtremeExample` | rubiks.timer.js:55-67 | runs 100, 100, 500: both copies of 100 and the 500 are dropped, so nothing is counted |
| `RunLog.TrimmedExamples` | rubiks.timer.js:55-67 | runs 300, 100, 500 count only 300; runs 100, 200 count both |
| `TimeFormat.Convert` | rubiks.timer.js:136-145 | the fields are bounded: ms < 1000, sec < 60, min < 60, hour < 24, day < 7 |
| `TimeFormat.ConvertReconstructs` | rubiks.timer.js:136-145 | ms + 1000 × (sec + 60 × (min + 60 × hour)) is the count modulo one day, so it is the count itself under 24 hours |
| `TimeFormat.DecimalString` | rubiks.timer.js:156 | `toString()` of a field is a non-empty run of decimal digits with no leading zero |
| `TimeFormat.DecimalRoundTrip` | rubiks.timer.js:156 | reading the decimal string back gives the number |
| `TimeFormat.DecimalLength` | rubiks.timer.js:156 | a number below 10^k has at most k digits |
| `TimeFormat.PaddedShape` | rubiks.timer.js:157-159 | padding keeps the string as its tail, adds only '0's in front, and gives max(length, digits) characters |
| `TimeFormat.PaddedValue` | rubiks.timer.js:157-159 | a padded field still reads as the same number |
| `TimeFormat.PadLeft` | rubiks.timer.js:157-159 | the `while` loop that prepends "0" ends with the string padded to `digits` characters |
| `TimeFormat.Truncated` | rubiks.timer.js:160 | `substr(0, length - trim)` is a prefix of length clamp(length - trim, 0, length): empty when trim reaches the length, the whole string when trim is negative |
| `TimeFormat.OverTrimIsEmpty` | rubiks.timer.js:160 | trimming at least as many characters as the padded text has gives the empty string |
| `TimeFormat.Extend` | rubiks.timer.js:126-131 | the result has the keys of both objects; `objB`'s entries win, and `objA`'s entries stay where `objB` has none |
| `TimeFormat.FormatTime` | rubiks.timer.js:150-164 | the loop returns `Formatted`: each field the timer's format names is rendered with the merged entry, other fields stay numbers, and a named non-field throws (None) |
| `TimeFormat.UnknownOverrideKeysIgnored` | rubiks.timer.js:153-154 | override keys the timer's own format does not name do not change the result |
| `TimeFormat.OverrideReplacesEntry` | rubiks.timer.js:151-160 | an override entry replaces its field's default entry whole: the field is rendered with the override alone, so an override without `trim` gives "" and one without `digits` is not padded |
| `TimeFormat.PartialOverrideExample` | rubiks.timer.js:151-160 | 5 ms with the override `{ms: {digits: 4}}` writes "" for ms, where a merge with the default `trim: 1` would have written "000" |
| `TimeFormat.DefaultFormatEntries` | rubiks.timer.js:88-94 | the default format names exactly ms, sec, min, hour and day, with digits and trim 3/1, 2/0, 1/0, 1/0, 1/0 |
| `TimeFormat.DefaultMsField` | rubiks.timer.js:89 | with the default ms entry, a value below 1000 is written as two digits that read as the value divided by ten, rounded down (cut, not rounded) |
| `TimeFormat.DefaultSecField` | rubiks.timer.js:90 | with the default sec entry, a value below 60 is written as two digits that read as the value |
| `TimeFormat.DefaultFormatWidths` | rubiks.timer.js:150-163 | under the default format with no override, every field is text, and ms and sec are always two characters |
| `TimeFormat.FormatExample` | rubiks.timer.js:150-163 | 61234 ms formats as ms "23", sec "01", min "1", hour "0", day "0" |
| `Stopwatch.Timer.constructor` | rubiks.timer.js:75-116 | a fresh timer is stopped with no dates and no live repeating timer; each given option replaces its default whole (interval 43, the default time format), as the shallow `extend` at line 166 does |
| `Stopwatch.Timer.Start` | rubiks.timer.js:175-188 | `start` sets running, sets the start to `now`, clears the end, and registers one new repeating timer; earlier ones stay live |
| `Stopwatch.Timer.Tick` | rubiks.timer.js:182-187 | a firing sets the end to the clock and gives the callback `elapsed()`, a second clock read minus the start while running, the end just set minus the start once stopped; either way at least end minus start |
| `Stopwatch.Timer.Stop` | rubiks.timer.js:192-196 | `stop` clears running, cancels only the latest repeating timer, and returns end minus start with `null` read as 0: at most what the last callback was given, and minus the start time with no tick since the start |
| `Stopwatch.Timer.Elapsed` | rubiks.timer.js:207-209 | `elapsed()` is clock minus start while running; once stopped it is at most what the last callback was given, and minus the start time with no tick since the start |
| `Stopwatch.Timer.Running` | rubiks.timer.js:237-239 | `running()` reports the flag, and while it holds the latest repeating timer is live |
| `Stopwatch.Timer.Reset` | rubiks.timer.js:200-203 | `reset` does what `stop` does and leaves both dates unchanged |
| `Stopwatch.Timer.Format` | rubiks.timer.js:231-233 | the public `format` is `Formatted` with the timer's own time format as the defaults |
| `Stopwatch.StoppedElapsedIsFrozen` | rubiks.timer.js:207-209 | once stopped, `elapsed()` does not depend on the clock |
| `Stopwatch.RunningElapsedFollowsClock` | rubiks.timer.js:207-209 | while running, `elapsed()` advances exactly as the clock does |
| `Stopwatch.StartTickStop` | rubiks.timer.js:175-196 | start, two ticks and a stop with the clock not going back: the timer ends stopped, the stop returns the last tick's end minus the start (not negative, at most what the callback last saw), and no repeating timer is left |
| `Stopwatch.DoubleStartLeaks` | rubiks.timer.js:175-196 | after two starts and one stop, the first start's repeating timer is still live |
| `ClassList.Split` | rubiks.timer.js:375 | `split(/\s+/)` gives at least one piece, and no piece holds white space |
| `ClassList.SplitJoin` | rubiks.timer.js:375-386 | joining class names with spaces and splitting again gives the names back |
| `ClassList.Without` | rubiks.timer.js:378-383 | a token is kept iff it is non-empty and not the named class; no tokens are added |
| `ClassList.KeepOthers` | rubiks.timer.js:378-383 | the shift/push loop keeps, in order, exactly the tokens that `Without` keeps |
| `ClassList.AddClass` | rubiks.timer.js:373-387 | `addClass` writes the kept tokens followed by the new class, joined with spaces |
| `ClassList.RemoveClass` | rubiks.timer.js:389-402 | `removeClass` writes the kept tokens joined with spaces |
| `ClassList.AddClassTokens` | rubiks.timer.js:373-387 | for a class name, the result splits into the non-empty tokens other than it, in order, followed by the name, which occurs exactly once |
| `ClassList.RemoveClassTokens` | rubiks.timer.js:389-402 | the result holds the same non-empty tokens other than the name, in order, and a non-empty name no longer occurs in it |
| `ClassList.AddClassIdempotent` | rubiks.timer.js:373-387 | adding a class name twice is the same as adding it once |
| `ClassList.RemoveClassIdempotent` | rubiks.timer.js:389-402 | removing a class twice is the same as removing it once |
| `ClassList.RemoveAfterAdd` | rubiks.timer.js:373-402 | removing a class name just added gives what removing it from the start gives |
| `ClassList.AddClassNeedsClassName` | rubiks.timer.js:373-387 | a "class" containing a space is not idempotent: adding "a b" twice writes it twice |

The spec functions `Sum`, `FastestOf`, `SlowestOf`, `KeptRuns`, `Padded`, `PaddedTo`,
`Render`, `Formatted`, `Join`, `ClassesAdded` and `ClassesRemoved` carry
no row: the lemmas and methods above state what they mean.

## Left out

- DOM lookups, `innerHTML` writes, scrolling and `style.display`
  (rubiks.timer.js:250-273, 336-345, 365-370). They are presentation only.
- The keyboard handlers (rubiks.timer.js:408-448). They are event wiring.
  Key-up calls `stop` and then `add` while the timer runs, and otherwise
  calls `start`. Key-down calls `reset` when the timer is stopped.
- `populateMoves` (rubiks.timer.js:314-330). It draws 25 moves with `Math.random`.
- The averages in `showRunResults` (rubiks.timer.js:360-363). They use
  floating-point division and divide by a trimmed count that can be 0.
- The fastest/slowest highlight loop (rubiks.timer.js:347-358). It is DOM
  class bookkeeping. Only the `addClass`/`removeClass` it calls is modelled.
- `window.setInterval`, `clearInterval` and `new Date()` are the host's
  timers and clock. They become the `id` and `now` parameters, the ghost
  set `Scheduled` and the `Tick` method. The interval length is kept as
  `intervalTime` but drives nothing.
- The callback given to `start` belongs to the UI. `Tick` returns the
  value the callback would receive. The callback is not called.
- `reset`'s assignment `startTime = endTime = 0` writes undeclared globals
  that nothing reads. The model leaves it out.
- `TimeFormat.Convert`: uses integer division and remainder on the
  millisecond count. The source builds a local-time `Date`, whose time
  zone, daylight-saving shifts and handling of fractional milliseconds are
  not modelled.
- `TimeFormat.FormatTime`: `digits` and `trim` are integers or missing.
  Other values (strings, fractions, objects) and inherited object
  properties named in a configuration are not modelled.
- The public setters `fastest(x)` and `slowest(x)` (rubiks.timer.js:36,
  42) let any caller store any truthy value, which would break the log's
  invariant. Only their use inside `add` is modelled.
- JavaScript's loose and strict equality are the same here, since the
  compared values are strings, or numbers compared with numbers or `null`.
