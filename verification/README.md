# Cry-interval aggregator of the baby monitor, in Dafny

The app listens to the microphone and gets a "crying baby" confidence score
for each audio frame. `CryIntervals` turns those scores into a list of
committed cry episodes. Each score at or above the threshold does exactly one
of four things:

- it opens a pending span (the "purgatory");
- it restarts the pending span after a silence longer than the maximum gap;
- it extends the pending span, and promotes it to an episode once it lasts
  the minimum duration;
- it stretches the last episode to the current time.

The record screen shows the episodes newest-first. Each row shows a duration
text such as `"1 min 5 secs"`.

Files:

- `Wrappers.dfy`: `Option`, Swift's optional.
- `Extensions.dfy`: the bounds-checked subscript `c[safe: i]`.
- `CryIntervals.dfy`: module `Intervals`. It holds Foundation's `DateInterval`,
  `ModificationType`, the class `CryIntervals` with its invariant `Valid()`, and
  `RecordData`.
- `FormattedStringManager.dfy`: `GetDuration`, plus a reader `ParseDuration`
  that proves the text loses nothing below the one-hour cap.
- `RecordVC.dfy`: the screen's constants, the newest-first row mapping, the
  rows refreshed after each `ModificationType`, and two worked call sequences.

Modelling choices:

- Instants and durations are seconds, as exact Dafny `real`s, not IEEE
  doubles. The confidence score and the threshold are `real`s too.
- `recordData` reads `Date()` at five places, and at most three of them run in
  one call: two at `CryIntervals.swift:35` on the first qualifying score, one at
  `:39` plus two at `:41` when the gap is too long, and one at `:39` plus one at
  `:45` or `:57` otherwise. The model takes one clock reading `now` per call,
  as a parameter.
- Foundation's `DateInterval(start:end:)` traps when `end < start`. The model
  makes `DateInterval` a subset type of `Interval`, so every place that builds
  one must prove `start <= end`. The gap interval at
  `CryIntervals.swift:39` is built the same way. So `RecordData` requires `now`
  to be no earlier than the last recorded time whenever the call gets that far.
  Sub-threshold calls and the very first qualifying call need nothing of `now`.
- The closing `return .noChange` of `recordData` can never run. The model
  replaces it with a proved `assert data != []`.
- The modelled Swift files use `ModificationType` but do not declare it. Its
  three cases are taken from its uses at `CryIntervals.swift:36-58` and
  `Controller/RecordVC.swift:191-195`.

## Model

| member | source | states |
|---|---|---|
| `Intervals.CryIntervals.constructor` | CodingAssignment2021/CryIntervals.swift:23-27 | A new aggregator keeps its three settings, has no episodes and no pending span, and satisfies the invariant. |
| `Intervals.CryIntervals.RecordData` | CodingAssignment2021/CryIntervals.swift:32-61 | Branch by branch. Below the threshold: `NoChange`, state untouched. First qualifying score: pending `[now, now]`, no episodes, `NoChange`. Gap over the maximum: pending restarts at `[now, now]`, episodes unchanged, `NoChange`. Pending span within the gap: it becomes `[start, now]`; if it lasts the minimum it is cleared and exactly that interval is appended (`CreatedNewEntry`), else it stays pending (`NoChange`). Otherwise the last episode becomes `[last.start, now]` (`ModifiedExistingEntry`). The list only grows by one at its end or changes its last entry, and the invariant is kept. |
| `Intervals.Duration` | CodingAssignment2021/CryIntervals.swift:39 | `DateInterval.duration` is never negative and is exactly what takes the start to the end. `DateInterval` itself is a subset type of `Interval` with `start <= end`, so each place that builds one proves Foundation's precondition. |
| `Intervals.LatestEnd` | CodingAssignment2021/CryIntervals.swift:38 | The last recorded time is at least the pending span's end and the last episode's end, and equals one of them. |
| `Intervals.SeparatedIsOrdered` | CodingAssignment2021/CryIntervals.swift:40-58 | If neighbouring episodes are more than a non-negative gap apart, then the whole list is ordered by start and pairwise disjoint. |
| `Intervals.EpisodesOrdered` | CodingAssignment2021/CryIntervals.swift:45-58 | In a valid aggregator every episode has `start <= end` and lasts at least the minimum duration. Episodes are in increasing start order and never overlap. |
| `Extensions.SafeGet` | CodingAssignment2021/Extensions.swift:10-12 | `c[safe: i]` yields the element exactly when `0 <= i < count`, and nil otherwise, without trapping. |
| `FormattedStringManager.GetDuration` | CodingAssignment2021/FormattedStringManager.swift:18-27 | Every duration yields a non-empty text. The text is `">1 hr"` exactly when the duration is at least 3600 s. Below that, it starts with a digit. |
| `FormattedStringManager.NatToString` | CodingAssignment2021/FormattedStringManager.swift:23-24 | Swift's `"\(n)"` for a non-negative count is a non-empty string of decimal digits without a leading zero. |
| `FormattedStringManager.Counted` | CodingAssignment2021/FormattedStringManager.swift:23-24 | A count's text starts with a digit and reads back, through an independent reader that checks the plural `s` against the count, as that count. |
| `FormattedStringManager.NatToStringRoundTrip` | CodingAssignment2021/FormattedStringManager.swift:23-24 | The decimal text of a count reads back as that count. |
| `FormattedStringManager.DurationParts` | CodingAssignment2021/FormattedStringManager.swift:21-25 | Below the cap, the text reads back as a minutes count and a seconds count, both under 60, with `minutes * 60 + seconds` equal to the truncated duration; the minutes count is zero exactly when the text is the seconds part alone. |
| `FormattedStringManager.ParseSecondsText` | CodingAssignment2021/FormattedStringManager.swift:25 | The seconds-only text for a count under 60 reads back as zero minutes and that many seconds. |
| `FormattedStringManager.ParseMinutesText` | CodingAssignment2021/FormattedStringManager.swift:26 | The text "minutes part, space, seconds part", for 1 to 59 minutes and under 60 seconds, reads back as those two counts. |
| `FormattedStringManager.GetDurationRoundTrip` | CodingAssignment2021/FormattedStringManager.swift:18-27 | Reading the text back gives "over an hour" at or above the cap, and below it the truncated duration's whole minutes and remaining seconds. The reader accepts no zero-minutes prefix and no count of 60 or more, so the text has neither. |
| `FormattedStringManager.GetDurationInjective` | CodingAssignment2021/FormattedStringManager.swift:18-27 | Two durations under an hour get the same text exactly when they have the same whole seconds. |
| `RecordVC.RowEntry` | CodingAssignment2021/Controller/RecordVC.swift:172 | The lookup `data[safe: data.count - row - 1]` finds an episode exactly for rows `0 <= row < count`, and then finds `data[count - 1 - row]`. |
| `RecordVC.RowsNewestFirst` | CodingAssignment2021/Controller/RecordVC.swift:166-172 | Each row `0 <= r < count` finds `data[count - 1 - r]`. Row 0 is the most recent episode. Out-of-range rows find nil. Every episode appears in exactly one row. |
| `RecordVC.RowsDescendInTime` | CodingAssignment2021/Controller/RecordVC.swift:172 | On a valid aggregator, an episode in a lower row started after the episode in any higher row ended. |
| `RecordVC.CreatedNewEntryShiftsRows` | CodingAssignment2021/Controller/RecordVC.swift:191-194 | After an append, row 0 is the new episode and every earlier row moves down by one, so the whole table must be reloaded. |
| `RecordVC.ModifiedExistingEntryChangesRowZero` | CodingAssignment2021/Controller/RecordVC.swift:195-200 | After the last episode changes, every row except row 0 shows what it showed before, so reloading row 0 alone is enough. |
| `RecordVC.CryThenSilence` | CodingAssignment2021/Controller/RecordVC.swift:15-28 | The screen uses threshold 0.5, gap 20 s and minimum 2 s. Loud frames at 0, 1, 2 s give `NoChange, NoChange, CreatedNewEntry` and the episode `[0, 2]`. A quiet frame changes nothing. A frame at 10 s stretches the episode to `[0, 10]`. A frame at 40 s leaves it alone and opens a pending span `[40, 40]`. |
| `RecordVC.ShortBlipIsDropped` | CodingAssignment2021/CryIntervals.swift:38-53 | Loud frames spanning one second and then a frame after a silence longer than the gap commit nothing. The last frame leaves a fresh pending span. |

## Left out

- Wall-clock reads: each `Date()` in `recordData` is one parameter `now`. The
  model does not capture the few microseconds between successive reads within one call.
- Floating point: times, durations and confidences are exact reals. Rounding
  of `Double` arithmetic and non-finite values are not modelled.
- `FormattedStringManager.getCurrentDate`, `getInterval` and `format`: these
  are thin wrappers over `DateFormatter`, whose locale and calendar behaviour
  cannot be seen.
- Audio capture and sound classification (`AudioManager.swift`,
  `Wrappers/MLSoundManager.swift`, the `SNAudioStreamAnalyzer` set-up and the
  hand-off to the analysis queue in `Controller/RecordVC.swift`): platform
  libraries and concurrency with no logic of their own. The model assumes calls
  to `RecordData` are serialised, as the single analysis queue makes them.
- View controllers and views (both `RecordVC.swift` variants, `MenuVC.swift`,
  the views and colours): UIKit layout and navigation. Only the row mapping and
  the refresh choice after each `ModificationType` are modelled, as lemmas.
- `Extensions.SafeGet`: modelled for array-backed collections, whose indices
  are `0 ..< count`. Other `Collection` index types are not modelled.
