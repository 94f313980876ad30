# Sleep backfill scripts, modelled in Dafny

This project models the two sleep backfill scripts of the quantified-self
pipeline.

**Prometheus backfill** (`scripts/sleep_backfill_prometheus.py`). The script
queries the "asleep" binary sensor over eight hard-coded windows. The windows
are calendar months from 1 December 2022, and the last one ends on 4 July 2023.
Each window's samples are swept in order. Every window starts awake. A sample
whose value is neither `"1"` nor `"0"` aborts the script. A rising edge records
the time of falling asleep (`fell_asleep`). A falling edge emits a record:
timestamp, time in bed, start and end. All windows feed one dictionary keyed by
the UTC end date. A date's entry is replaced only by a strictly longer sleep.
The dictionary's values are what the script submits.

**Takeout backfill** (`scripts/sleep_backfill_takeout.py`). Each exported sleep
session becomes a record of the same shape. Records whose end date already
appears among the stored sleeps are then dropped.

Modules, one per concern:

- `Results` (`results.dfy`): `Option` and `Result`.
- `SleepRecords` (`sleep_records.dfy`): the shared record and `Day`, the UTC
  calendar day of a Unix time.
- `EdgeDetection` (`edge_detection.dfy`): the per-window sweep (`Step`,
  `SweepWindow`). It also holds a reference definition of the completed sleeps
  of a window (`Falls`, `RunStart`, `Completed`). The reference is read
  directly off the sample sequence: each falling edge is paired with the start
  of the asleep run that precedes it.
- `LongestEntries` (`longest_per_day.dfy`): the `longest_entries` dictionary.
  It is modelled as its insertion-ordered keys plus a map, reduced entry by
  entry (`Insert`, `Reduce`, `LongestPerDay`). Its specification
  (`FirstLongest`, `IsLongestPerDay`) states the argmax with its first-wins tie
  rule.
- `PrometheusBackfill` (`prometheus_backfill.dfy`): the window list, built from
  calendar dates, and the loop over windows (`Collect`, `Backfill`). The query
  is a function parameter from a window to its samples.
- `TakeoutBackfill` (`takeout_backfill.dfy`): session-to-record mapping and the
  stored-night filter.

Times are Unix seconds (`int`), and durations are integer seconds. `Day(t)` is
`t / 86400`. Dafny's division rounds down for a positive divisor, so this is
the UTC date that `datetime.fromtimestamp(t, tz=timezone.utc).date()` yields.

Two consequences of the code as written are proved, not changed:

- `fell_asleep` is a module-level variable and is never reset between windows.
  The model carries it from window to window. `StaleFellAsleepUnused` shows
  that no record depends on the carried value.
- `current_state` is reset to awake at each window. So a sleep that is still in
  progress at the end of a window emits nothing there. In the next window it is
  recorded as starting at that window's first sample
  (`InProgressSleepNotReported`, `SleepAtWindowStartStartsThere`).

## Model

| member | source | states |
|---|---|---|
| `SleepRecords.Day` | scripts/sleep_backfill_prometheus.py:70 | the date of a time is the unique day `d` with `d*86400 <= t < (d+1)*86400` (UTC calendar day) |
| `SleepRecords.MakeRecord` | scripts/sleep_backfill_prometheus.py:62-67 | an emitted record is stamped with its end time, lasts end minus start, and keeps start and end unchanged |
| `EdgeDetection.ParseState` | scripts/sleep_backfill_prometheus.py:52-57 | only `"1"` and `"0"` are defined states; `"1"` means asleep |
| `EdgeDetection.Step` | scripts/sleep_backfill_prometheus.py:50-67 | one sample: an undefined value stops the sweep at that sample (the error value records where; the source exception carries no data); the new state is asleep iff the value is `"1"`; a record from `fell_asleep` to the sample time is appended only on asleep-to-awake; `fell_asleep` changes only on awake-to-asleep, to the sample time |
| `EdgeDetection.SweepWindow` | scripts/sleep_backfill_prometheus.py:47-67 | the sweep of a window fails exactly when some sample value is undefined; whenever it is asleep it knows when sleep began |
| `EdgeDetection.RunStart` | scripts/sleep_backfill_prometheus.py:58-61 | every falling edge is preceded, in the same window, by a rising edge that opened an unbroken asleep run reaching it |
| `EdgeDetection.Falls` | scripts/sleep_backfill_prometheus.py:58-59 | lists exactly the asleep-to-awake transitions of a window, in increasing order |
| `EdgeDetection.SweepMatchesReference` | scripts/sleep_backfill_prometheus.py:47-67 | on a well-formed window the sweep ends asleep iff the last sample is asleep, leaves `fell_asleep` at the last rising edge (or the carried value if there is none), and has emitted exactly the reference list of completed sleeps |
| `EdgeDetection.SweepErrorIsFirstBadSample` | scripts/sleep_backfill_prometheus.py:49-57 | a failing sweep reports the first sample with an undefined value, and nothing else is returned |
| `EdgeDetection.StaleFellAsleepUnused` | scripts/sleep_backfill_prometheus.py:47-61 | success and the emitted records do not depend on the `fell_asleep` left over from earlier windows |
| `EdgeDetection.SweepRecordsAreTransitions` | scripts/sleep_backfill_prometheus.py:58-67 | one record per asleep-to-awake transition, in order: end = falling-edge sample time, start = time of the rising edge that opened the run, timestamp = end, duration = end minus start |
| `EdgeDetection.InProgressSleepNotReported` | scripts/sleep_backfill_prometheus.py:49-67 | trailing samples that are all asleep add no record: a sleep still in progress at the window's last sample is not reported |
| `EdgeDetection.CompletedOrdered` | scripts/sleep_backfill_prometheus.py:49-67 | with strictly increasing sample times, each completed sleep starts before it ends and ends before any later one starts |
| `EdgeDetection.SweepOrdered` | scripts/sleep_backfill_prometheus.py:49-67 | the same ordering, stated of the sweep's emitted records |
| `EdgeDetection.FallBetween` | scripts/sleep_backfill_prometheus.py:58-59 | between an asleep sample and a later awake one the sweep meets a falling edge |
| `EdgeDetection.SleepAtWindowStartStartsThere` | scripts/sleep_backfill_prometheus.py:47-61 | since each window starts awake, a sleep in progress at a window's first sample is recorded as starting at that sample |
| `LongestEntries.Insert` | scripts/sleep_backfill_prometheus.py:70-75 | one entry: its end date becomes a key (appended to the key order only when new), every other date keeps its entry, and the dictionary stays well-formed |
| `LongestEntries.Reduce` | scripts/sleep_backfill_prometheus.py:69-75 | the loop over a window's entries keeps the dictionary well-formed; its keys and entries are stated by `ReduceSpec` |
| `LongestEntries.Values` | scripts/sleep_backfill_prometheus.py:76 | `values()` yields one entry per key, in the dictionary's insertion order of keys |
| `LongestEntries.LongestPerDay` | scripts/sleep_backfill_prometheus.py:69-76 | no two submitted entries share an end date; `LongestPerDaySpec` and `LongestPerDayOrder` state which entry each date keeps and their order |
| `LongestEntries.ReduceAppend` | scripts/sleep_backfill_prometheus.py:35-76 | reducing all windows' records into one dictionary equals reducing each window's records into the dictionary left by the previous windows |
| `LongestEntries.FirstLongestUnique` | scripts/sleep_backfill_prometheus.py:74 | the strict `>` makes the kept entry unique: at most one index is the first of the longest of a date |
| `LongestEntries.ReduceSpec` | scripts/sleep_backfill_prometheus.py:69-75 | the dictionary's keys are exactly the end dates seen, and each key holds the first of the longest entries ending on that date |
| `LongestEntries.LongestPerDayOnePerDay` | scripts/sleep_backfill_prometheus.py:69-76 | the result holds exactly one entry per distinct end date among the entries |
| `LongestEntries.LongestPerDayIsFirstLongest` | scripts/sleep_backfill_prometheus.py:69-76 | each kept entry ends on its date, no entry of that date is longer, and every earlier entry of that date is strictly shorter |
| `LongestEntries.LongestPerDaySpec` | scripts/sleep_backfill_prometheus.py:69-76 | both of the above together |
| `LongestEntries.FirstEnding` | scripts/sleep_backfill_prometheus.py:71-72 | the index at which a date is first seen: it ends on that date and no earlier entry does |
| `LongestEntries.LongestPerDayOrder` | scripts/sleep_backfill_prometheus.py:71-76 | the values come out in the order in which their end dates were first seen (dictionary insertion order) |
| `PrometheusBackfill.Windows` | scripts/sleep_backfill_prometheus.py:7-33 | eight windows from 2022-12-01T00:00Z (1669852800) to 2023-07-04T00:00Z (1688428800), each non-empty, each starting where the previous one ends |
| `PrometheusBackfill.Collect` | scripts/sleep_backfill_prometheus.py:35-75 | the loop over windows keeps the dictionary well-formed: keys listed once, each entry ending on its key |
| `PrometheusBackfill.CollectMatchesReference` | scripts/sleep_backfill_prometheus.py:35-75 | the loop fails exactly when some window holds an undefined value, and otherwise holds the reduction of all windows' completed sleeps, in window order |
| `PrometheusBackfill.CollectKeepsLongestPerDay` | scripts/sleep_backfill_prometheus.py:35-76 | after any window list, the dictionary's values are one entry per end date, each the first longest sleep ending on that date |
| `PrometheusBackfill.BackfillSpec` | scripts/sleep_backfill_prometheus.py:7-76 | the sweep fails, with no partial result, exactly when a window holds a value other than `"1"` or `"0"`; otherwise the submitted list is the reduction of all completed sleeps in window order, so `LongestPerDayOrder` fixes its order, and it holds one entry per end date among them, the first of the longest ending on that date |
| `PrometheusBackfill.Backfill` | scripts/sleep_backfill_prometheus.py:35-76 | the submitted list never holds two entries for the same end date; its full contract (error iff an undefined value, else the per-date first longest of all completed sleeps) is `BackfillSpec` |
| `TakeoutBackfill.ToRecords` | scripts/sleep_backfill_takeout.py:12-19 | one record per session, in session order, with start and end copied, timestamp = end and duration = end minus start |
| `TakeoutBackfill.ExistingDays` | scripts/sleep_backfill_takeout.py:21 | a date is existing exactly when some stored sleep ends on it |
| `TakeoutBackfill.DropExisting` | scripts/sleep_backfill_takeout.py:22 | no kept record ends on an existing date, and every kept record comes from the input |
| `TakeoutBackfill.DropExistingCounts` | scripts/sleep_backfill_takeout.py:22 | a record of a new date is kept as often as it occurs, and a record of an existing date never is |
| `TakeoutBackfill.DropExistingAppend` | scripts/sleep_backfill_takeout.py:22 | filtering commutes with concatenation, so relative order is preserved and records are not modified |
| `TakeoutBackfill.DropExistingIdentity` | scripts/sleep_backfill_takeout.py:22 | filtering leaves a list unchanged exactly when none of its records ends on an existing date |
| `TakeoutBackfill.DropExistingIdempotent` | scripts/sleep_backfill_takeout.py:22 | filtering again with the same existing dates changes nothing |
| `TakeoutBackfill.ToRecordsCounts` | scripts/sleep_backfill_takeout.py:12-19 | each session's record occurs exactly as often as the session |
| `TakeoutBackfill.Backfill` | scripts/sleep_backfill_takeout.py:12-22 | no submitted record ends on the date of a stored sleep, each submitted record is the record of some session, and there are at most as many records as sessions; the multiplicity of each record is `BackfillSpec` |
| `TakeoutBackfill.BackfillSpec` | scripts/sleep_backfill_takeout.py:12-22 | the script submits a session's record as often as the session occurs, unless some stored sleep ends on the same date, in which case it never submits it |

## Left out

- The Prometheus HTTP query (`scripts/sleep_backfill_prometheus.py:37-45`) is network I/O. It is the parameter `query` from a window to its samples, standing for `response['data']['result'][0]['values']` (line 49). The query string and the 300-second step are not modelled. Nothing is assumed about the sample times except where a lemma says so.
- A window for which Prometheus returns no series makes `['result'][0]` (line 49) raise `IndexError`. The model's `query` always yields a sample list, so this failure is not modelled; `BackfillSpec` describes only the sweep's own failure.
- As written, `scripts/sleep_backfill_prometheus.py` never imports `requests`, and `scripts/sleep_backfill_takeout.py:21` uses `get_all_metric` and `conn`, which it never defines. These names come from outside the scripts and are outside the model, which treats their results as inputs.
- Prometheus returns floating-point timestamps. They are taken as integer seconds; with a 300-second step from a midnight they are whole seconds anyway.
- Time in bed is stored and compared in integer seconds, not as float hours (`/3600`). For integer-second durations far below 2^53 seconds, dividing by 3600 keeps strict order, so the `>` comparison gives the same result.
- File access, globbing, JSON parsing and `datetime.fromisoformat` (`scripts/sleep_backfill_takeout.py:7-13`) are library calls. Sessions are given as parsed Unix times.
- `TakeoutBackfill.ExistingDays`: Python's `date()` on a parsed Takeout time or a stored database time uses that datetime's own UTC offset. The model uses the UTC day of the instant. The two agree for UTC times.
- The database read `get_all_metric` (`scripts/sleep_backfill_takeout.py:21`) is a foreign call. The stored end times are an input sequence.
- Submitting `data_submit` to the database happens outside these scripts and is not modelled.
- `scripts/steps_backfill_takeout.py` reads CSV files day by day. Its only logic maps a blank step count to 0, which is too thin to model.
- `app.py` is a scheduler bootstrap with no logic.
- The bucket resampling pipeline described for the wider repository is not part of this model, since its source is not among the modelled files.
- In Python, using `fell_asleep` before it is assigned would raise `NameError`. The model carries it as an `Option`. The sweep's invariant (`Consistent`) shows that it is always set when a falling edge reads it, so this error cannot happen.
