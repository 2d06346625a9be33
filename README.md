# Stopwatch engine

A Dafny model of the stopwatch behind the `Stopwatch` React component
(`src/components/Stopwatch.tsx`). The component keeps three pieces of state:
the elapsed time in milliseconds, whether the clock runs, and a list of lap
records. It changes them through a 10 ms interval callback and four handlers
(start, pause, reset, lap). Each lap record holds its number, its split and
its cumulative time as `MM:SS.CC` display strings, and two flags that mark
the fastest and the slowest laps. When a lap is taken, the previous lap's
cumulative time and every lap's split are read back from those strings
before the flags are recomputed.

The project has five modules:

- `Wrappers` (`wrappers.dfy`): `Option`, where `None` stands for JavaScript's
  `NaN`. It also has `StrictEq`, the `===` under which `NaN` equals nothing.
- `JsStrings` (`js_strings.dfy`): the string primitives the component uses.
  These are `toString` on non-negative integers, `padStart(2, '0')`,
  `split` with a one-character separator and `parseInt` on digit strings.
- `TimeFormat` (`time_format.dfy`): `formatTime` and the two parsers that
  read its output back:
  - the `reduce` in the lap handler, which reads the previous lap's cumulative time;
  - the `map`, which reads every lap's split.

  It also has the round trips between the formatter and each parser.
- `Laps` (`laps.dfy`): the `LapTime` record (the interface at
  `src/components/Stopwatch.tsx:4-10`, as a datatype), splits and their telescoping
  sum, `Math.min` and `Math.max` with `NaN`, the flag recomputation loop, and
  the invariant that describes the lap history.
- `StopwatchEngine` (`stopwatch.dfy`): the class `Stopwatch` with the fields
  `time`, `isRunning` and `lapTimes`, the handlers as methods, and a ghost
  field `Totals` that holds the elapsed time at which each lap was taken.
  `Valid()` says three things:
  - the clock is on its 10 ms grid;
  - every lap was taken after the clock had moved and not later than now;
  - every lap record is what the lap handler writes for its cumulative time,
    with its split measured since the previous lap, and its flags match the
    extremes of the splits.

## Model

| member | source | states |
|---|---|---|
| Wrappers.StrictEq | src/components/Stopwatch.tsx:90-91 | JavaScript's `===` and `!==` on numbers that may be `NaN` (`None`): true exactly when both are numbers and equal, so `NaN` equals nothing, not even itself |
| JsStrings.DigitsValue | src/components/Stopwatch.tsx:82 | the value `parseInt` reads from a string of decimal digits, most significant digit first |
| JsStrings.ParseInt | src/components/Stopwatch.tsx:66-68 | `parseInt` on the strings the stopwatch produces: a non-empty all-digit string gives its value, every other string `NaN` (`None`); `ParsePadded` and `FieldFacts` show it inverts the padded rendering |
| JsStrings.NatToDigits | src/components/Stopwatch.tsx:42-44 | `toString` of a natural number is a non-empty digit string. It has one digit exactly when the number is below 10 and two digits from 10 to 99, and never has a leading zero |
| JsStrings.PadStart2 | src/components/Stopwatch.tsx:42-44 | `padStart(2, '0')` leaves a string of two or more characters unchanged, so it never truncates. A shorter string becomes exactly two characters: zeros on the left, then the original |
| JsStrings.Split | src/components/Stopwatch.tsx:80-81 | `split` with a one-character separator gives at least one piece, and no piece contains the separator |
| JsStrings.DigitsValueOfNat | src/components/Stopwatch.tsx:42-44 | reading back the decimal rendering of `n` gives `n` |
| JsStrings.LeadingZero | src/components/Stopwatch.tsx:42-44 | a zero added by the padding does not change the value that `parseInt` reads |
| JsStrings.ParsePadded | src/components/Stopwatch.tsx:42-44 | `parseInt(n.toString().padStart(2, '0'))` is `n` for every natural `n` |
| JsStrings.SplitWithoutSeparator | src/components/Stopwatch.tsx:80-81 | a string without the separator splits into itself alone |
| JsStrings.SplitAtFirst | src/components/Stopwatch.tsx:80-81 | the first separator ends the first piece, and the rest is split on its own |
| JsStrings.JoinSplit | src/components/Stopwatch.tsx:80-81 | joining the pieces with the same separator gives back the string, so `split` loses nothing |
| TimeFormat.Field | src/components/Stopwatch.tsx:42-44 | one field of the display, `n.toString().padStart(2, '0')`; its properties are stated by `FieldFacts` |
| TimeFormat.Display | src/components/Stopwatch.tsx:42-44 | the template literal `MM:SS.CC` filled with three fields; `DisplayShape` and the two `...Display` lemmas state what it produces and how it is read back |
| TimeFormat.FormatTime | src/components/Stopwatch.tsx:36-45 | `formatTime`: the display of the floored minutes, seconds within the minute and hundredths within the second; `FormatTimeShape` and the round trips state its meaning |
| TimeFormat.ParseTotalTime | src/components/Stopwatch.tsx:65-69 | the inline `reduce` that reads the previous lap's cumulative time: split on ':' and fold the parts from 0; `ParseTotalTimeRoundTrip` states that it inverts `FormatTime` up to the last millisecond digit |
| TimeFormat.ReduceParts | src/components/Stopwatch.tsx:65-69 | the fold of the `reduce` over the parts in order, carrying the part index and the accumulator (`NaN` once any step gives `NaN`) |
| TimeFormat.ReduceStep | src/components/Stopwatch.tsx:66-68 | the reducer callback: part 0 is minutes times 60000; a later part is `sec.ms` added to the accumulator, `NaN` when a piece is missing or not a number |
| TimeFormat.ParseSplitTime | src/components/Stopwatch.tsx:80-82 | the `map` callback that reads one split string: `[min, secMs]` on ':', `[sec, ms]` on '.', then the sum in milliseconds; `ParseSplitTimeRoundTrip` states that it inverts `FormatTime` |
| TimeFormat.FieldFacts | src/components/Stopwatch.tsx:42-44 | a padded field is all digits and at least two long, exactly two below 100. It contains neither separator, and `parseInt` reads it back as the number |
| TimeFormat.TruncatedFields | src/components/Stopwatch.tsx:38-40 | the seconds field is below 60 and the hundredths field below 100. The three floored fields add back to `ms - ms % 10`, so only the last millisecond digit is lost |
| TimeFormat.DisplayShape | src/components/Stopwatch.tsx:42-44 | the template with seconds and hundredths below 100 has the shape `\d{2,}:\d{2}\.\d{2}`, and its fields read back as given |
| TimeFormat.FormatTimeShape | src/components/Stopwatch.tsx:36-45 | `formatTime(ms)` has the shape `\d{2,}:\d{2}\.\d{2}`. Its fields read as whole minutes, seconds within the minute (below 60) and hundredths within the second (below 100) |
| TimeFormat.FieldSamples | src/components/Stopwatch.tsx:42-44 | the fields of 0, 1, 59 and 100 are `00`, `01`, `59` and `100` |
| TimeFormat.FormatTimeZero | src/components/Stopwatch.tsx:36-45 | 0 ms shows as `00:00.00` |
| TimeFormat.FormatTimeMinuteSecond | src/components/Stopwatch.tsx:36-45 | 61000 ms shows as `01:01.00` |
| TimeFormat.FormatTimeTruncates | src/components/Stopwatch.tsx:36-45 | 599 ms shows as `00:00.59`: the hundredths are truncated, not rounded |
| TimeFormat.FormatTimeWideMinutes | src/components/Stopwatch.tsx:36-45 | 100 minutes show as `100:00.00`: the minute field grows past two digits |
| TimeFormat.DisplaySplits | src/components/Stopwatch.tsx:80-81 | a display split on ':' gives the minute field and `SS.CC`, and `SS.CC` split on '.' gives the other two fields |
| TimeFormat.SplitFields | src/components/Stopwatch.tsx:80-81 | `MM:SS.CC` with separator-free fields splits into those fields |
| TimeFormat.ParseTotalTimeDisplay | src/components/Stopwatch.tsx:65-69 | the `reduce` parser reads a display back as minutes·60000 + seconds·1000 + hundredths·10 |
| TimeFormat.ParseSplitTimeDisplay | src/components/Stopwatch.tsx:80-82 | the `map` parser reads a display back as minutes·60000 + seconds·1000 + hundredths·10 |
| TimeFormat.ParseTotalTimeMinutesOnly | src/components/Stopwatch.tsx:65-66 | a string without ':' is only the index-0 part of the `reduce`: a digit string reads as that many minutes, anything else as `NaN` |
| TimeFormat.ParseSplitTimeNeedsColon | src/components/Stopwatch.tsx:80-81 | the `map` parser gives no duration for a string without ':' |
| TimeFormat.ParseSplitTimeNeedsDot | src/components/Stopwatch.tsx:81-82 | the `map` parser gives no duration when the part after ':' has no '.' |
| TimeFormat.ParseTotalTimeRoundTrip | src/components/Stopwatch.tsx:65-69 | for every `ms`, the `reduce` parser applied to `formatTime(ms)` gives `ms - ms % 10` |
| TimeFormat.ParseSplitTimeRoundTrip | src/components/Stopwatch.tsx:80-82 | for every `ms`, the `map` parser applied to `formatTime(ms)` gives `ms - ms % 10` |
| TimeFormat.ParseFormatExact | src/components/Stopwatch.tsx:63-69 | on multiples of 10 both parsers invert `formatTime` exactly, and `formatTime` is injective there (both directions) |
| Laps.Durations | src/components/Stopwatch.tsx:79-83 | `lapDurations`: every lap's split string read back with the `map` callback, in lap order; `EntriesReadBack` states that it equals the integer splits of a recorded history |
| Laps.Flagged | src/components/Stopwatch.tsx:90-91 | one lap's flags from its duration and the extremes: fastest when `duration === min` and `min !== max`, slowest when `duration === max` and `min !== max`; `ExtremesFlag` relates it to `IsMinAt` and `IsMaxAt` |
| Laps.NewestFirst | src/components/Stopwatch.tsx:172 | `lapTimes.slice().reverse()`: the list shown newest first; `ReversedLabels` states its labels |
| Laps.Splits | src/components/Stopwatch.tsx:65-70 | one split per lap: the first split is the first cumulative time, and each later split is the difference from the previous cumulative time |
| Laps.SplitsTelescope | src/components/Stopwatch.tsx:65-70 | the splits add up to the last cumulative time |
| Laps.SplitsNonNegative | src/components/Stopwatch.tsx:65-70 | no split is negative exactly when the cumulative times never decrease (both directions) |
| Laps.SplitsAppend | src/components/Stopwatch.tsx:65-75 | taking one more lap at time `x` appends the one split `x` minus the previous total, and the earlier splits stay as they were |
| Laps.MinExists | src/components/Stopwatch.tsx:85 | a non-empty list of splits has a position holding its least value |
| Laps.MaxExists | src/components/Stopwatch.tsx:86 | a non-empty list of splits has a position holding its greatest value |
| Laps.FlagsCharacterisation | src/components/Stopwatch.tsx:88-92 | no lap is both fastest and slowest. When all splits are equal (in particular with one lap) no lap is flagged. Otherwise some lap is fastest and some lap is slowest, and laps with equal splits carry equal flags, so every tied lap is flagged |
| Laps.MathMin | src/components/Stopwatch.tsx:85 | `Math.min(...)` is `NaN` exactly when some entry is `NaN`. Otherwise it is an entry and no entry is smaller |
| Laps.MathMax | src/components/Stopwatch.tsx:86 | `Math.max(...)` is `NaN` exactly when some entry is `NaN`. Otherwise it is an entry and no entry is larger |
| Laps.ExtremesFlag | src/components/Stopwatch.tsx:88-92 | when every duration was read: `min === max` exactly when all are equal, `d === min` exactly when the lap holds the least, and `d === max` exactly when it holds the greatest |
| Laps.RecomputeFlags | src/components/Stopwatch.tsx:78-93 | with two or more laps, every lap is flagged fastest (slowest) exactly when the durations are not all equal and its duration is the least (greatest); if some duration is `NaN`, nothing is flagged. A single lap is left as it is. Numbers and strings never change |
| Laps.EntriesAt | src/components/Stopwatch.tsx:63-72 | in a recorded history, lap `k` has number `k + 1`, shows its cumulative time as its total, and shows its non-negative split as its time |
| Laps.EntriesNonDecreasing | src/components/Stopwatch.tsx:63-70 | the cumulative times of a recorded history never decrease |
| Laps.ReversedLabels | src/components/Stopwatch.tsx:172-185 | in the list shown newest first, row `i` has the label `#(length - i)`, which is the number the lap was recorded with |
| Laps.EntriesAppend | src/components/Stopwatch.tsx:61-75 | appending the lap the handler builds at `time` keeps the history recorded |
| Laps.EntriesIgnoreFlags | src/components/Stopwatch.tsx:88-92 | changing only the flags keeps the history recorded |
| Laps.EntriesReadBack | src/components/Stopwatch.tsx:78-83 | on the 10 ms grid, every split string reads back as its exact split and every total string as its exact cumulative time. The string detour computes the integer splits |
| Laps.EntryReadsBack | src/components/Stopwatch.tsx:80-82 | the strings of one recorded lap read back as its split and its cumulative time |
| Laps.LastTotalReadBack | src/components/Stopwatch.tsx:65-69 | the `reduce` over the last lap's total string gives the time that lap was taken at |
| Laps.EntryReadBack | src/components/Stopwatch.tsx:80-82 | a lap whose strings are `formatTime` of grid times reads back as those times |
| Laps.LapDurationsAddUp | src/components/Stopwatch.tsx:65-82 | the durations read back from the split strings add up to the time read back from the last total string |
| Laps.TwoLaps | src/components/Stopwatch.tsx:61-93 | two laps whose second split is shorter than the first have numbers 1 and 2, the second split string is `formatTime` of the difference, the first lap is slowest and not fastest, and the second is fastest and not slowest |
| StopwatchEngine.Stopwatch.constructor | src/components/Stopwatch.tsx:13-15 | the initial state: stopped at zero with no laps |
| StopwatchEngine.Stopwatch.Start | src/components/Stopwatch.tsx:47-49 | the clock runs, nothing else changes, and applying it twice is the same as once |
| StopwatchEngine.Stopwatch.Pause | src/components/Stopwatch.tsx:51-53 | the clock stops, nothing else changes, and applying it twice is the same as once |
| StopwatchEngine.Stopwatch.Reset | src/components/Stopwatch.tsx:55-59 | from any state: stopped, zero, no laps |
| StopwatchEngine.Stopwatch.Tick | src/components/Stopwatch.tsx:18-22 | while running, one callback adds exactly 10 ms and changes nothing else |
| StopwatchEngine.Stopwatch.Lap | src/components/Stopwatch.tsx:61-97 | at zero nothing changes. Otherwise exactly one lap is appended: numbered after the last, with `formatTime(time)` as total and `formatTime(time - previous total)` as split. Earlier laps keep number and strings, and the history stays recorded |
| StopwatchEngine.RecordedAfterLap | src/components/Stopwatch.tsx:61-97 | the list after the flag recomputation is the recorded history of the old cumulative times plus the current time |
| StopwatchEngine.PreviousLapTotal | src/components/Stopwatch.tsx:65-69 | the `reduce` over the last lap's total string, or 0 without laps, is the time the last lap was taken at |
| StopwatchEngine.LapTwice | src/components/Stopwatch.tsx:61-73 | two laps with no tick in between record the same cumulative time twice, and the second has the split `00:00.00` |

## Left out

- The interval machinery (`useEffect`, `setInterval`, `clearInterval`, the
  ref, lines 16-34) is not modelled. `Tick` is one firing of the callback,
  which can only happen while the clock runs. Timer drift and React's
  batching of state updates are out of scope.
- The JSX rendering (lines 99-226) is not modelled: buttons, their enabling
  and the CSS classes. The only exception is `ReversedLabels`, which
  relates the `#(length - index)` labels of the newest-first list to the lap
  numbers.
- `Navigation.tsx`, `GradientCircle.tsx` and `Section.tsx` are not part of
  this model.
- JsStrings.ParseInt: only a non-empty string of decimal digits gives a
  number; every other string gives `NaN`. `parseInt`'s handling of leading
  whitespace, signs and trailing non-digits is not modelled. `formatTime`
  only produces digit fields, so the history never reaches those cases.
- TimeFormat.ParseSplitTime: a string without ':' yields `None`. In the
  source, `secMs.split` would then throw a `TypeError` on `undefined`.
  Recorded histories never contain such a string.
- JavaScript numbers are doubles. The model uses unbounded naturals, so
  times beyond 2^53 ms behave differently; `formatTime` is never applied to
  negative or non-finite values here.
- RecomputeFlags: the source sets the flags by mutating the lap objects,
  which are shared with the previous state's array. The model works on
  values and returns a new list. The previous state is replaced at once, so
  the sharing cannot be observed, but it is not represented.
- The lap handler reads `time` and `lapTimes` from the render it belongs
  to. The model reads the current fields, as if no tick had landed between
  render and click.

## Notes

- Cumulative lap times are non-decreasing, not strictly increasing. The
  code lets two laps be taken without a tick in between (while paused, or
  twice within one 10 ms step), and they then record equal cumulative times
  and a split of zero. `EntriesNonDecreasing` and `LapTwice` state this.
- The fastest and slowest flags are computed, as in the code, from
  durations parsed back from the split strings, not from integer splits.
  `EntriesReadBack` shows that on the clock's 10 ms grid both give the same
  numbers. `RecordedAfterLap` therefore states the flags against the
  integer splits.
