# Log analysis core of the equipment log parser

This project models the three analyses in `log_parser.py` that turn parsed
equipment-log events into reports:

- **Precursor mining** (`find_precursor_patterns`, module `PrecursorMiner`):
  every record whose AlarmID is a critical alarm looks back at the few
  records before it. The warning alarms found there are joined into a
  pattern. Identical (pattern, failure) pairs are counted and ranked,
  largest count first. The method `FindPrecursorPatterns` is proved equal
  to the specification function `PrecursorPatterns`, and the lemmas state
  what that table holds.
- **Exploratory profile** (`perform_eda`, module `ExploratoryProfiler`):
  how often each event name and each numeric AlarmID occurs, and the
  table of the records that carry an AlarmID. This is pure code and is
  modelled as functions and lemmas.
- **Job summary** (`analyze_data`, module `JobSummarizer`): the first
  `LOADSTART` command opens a job and supplies its lot and panel count.
  The first job-end event (CEID 131 or 132) at or after it completes the
  job, and the two timestamps give the duration. A full pass over the log
  collects the operators, the magazines and the LOCAL/REMOTE control-state
  changes. The methods (`AnalyzeData` and the loops it runs) are proved
  equal to the specification function `Summarize`. The lemmas state the
  summary's rules case by case.

Supporting modules:

- `Text`: Python's `int()` on strings, the decimal rendering of integers and `str.join`.
- `Counting`: `Counter`/`value_counts` tables and their descending sort.
- `Sequences`: positions of the elements that pass a test.
- `EventFrame`: the table rows that the miner and the profiler read.
- `Timestamps`: `%Y/%m/%d %H:%M:%S.%f` timestamps read as microseconds on the proleptic Gregorian calendar.
- `Wrappers`: `Option` and `Result`.

The configuration the source imports (`CRITICAL_ALARM_IDS`, `ALARM_MAP`)
and the window size are parameters (`PrecursorMiner.Settings`).

## Model

| member | source | states |
|---|---|---|
| PrecursorMiner.FindPrecursorPatterns | log_parser.py:7-24 | The result equals `PrecursorPatterns`, including the early exit for a table with no AlarmID. |
| PrecursorMiner.FindPrecursorPatternsDefault | log_parser.py:7 | Without a window size the result is that of a window of 5 records. |
| PrecursorMiner.CollectSequences | log_parser.py:11-20 | The loop over the critical positions builds exactly the `precursor_sequences` list of `Collect`. It stops with the error a nameless warning raises. |
| PrecursorMiner.CriticalAt | log_parser.py:9-10 | A position is among the critical indices iff its coerced AlarmID is one of the critical IDs. |
| PrecursorMiner.NoCriticalNoPatterns | log_parser.py:8-21 | Without any critical record, including a table without AlarmIDs, the result is the empty table. |
| PrecursorMiner.WarningWindow | log_parser.py:13-15 | The window holds at most `window_size` records, all strictly before the critical one and at most `window_size` back, in order. A record there is a warning iff its AlarmID is numeric and not critical. |
| PrecursorMiner.ContributionCases | log_parser.py:15-20 | A critical record adds nothing iff its window has no warning. It raises iff a warning there has no name. Otherwise it adds the warning names joined by " -> " and the mapped failure name, or "Critical Alarm <id>" for an unmapped ID. |
| PrecursorMiner.UnmappedLabelNamesId | log_parser.py:18-19 | The generic label of an unmapped alarm is "Critical Alarm " followed by a signed decimal numeral that reads back as the alarm ID. |
| PrecursorMiner.CollectFails | log_parser.py:12-20 | Collecting fails iff some visited critical record raises. |
| PrecursorMiner.ContributorsAreCritical | log_parser.py:10-16 | When mining succeeds, a record contributes an occurrence iff it is critical and its window holds a warning. |
| PrecursorMiner.SequencesCount | log_parser.py:11-20 | When mining succeeds, `precursor_sequences` has one item per critical record whose window has a warning. Each (pattern, failure) pair occurs as often as records produce it. |
| PrecursorMiner.PatternsAreProduced | log_parser.py:21-24 | A pair is in the result table iff some record produced it. |
| PrecursorMiner.PrecursorPatternsFacts | log_parser.py:21-24 | The result table holds each pair once, with the number of records that produced it (at least 1), largest count first. The counts add up to the number of contributing critical records. |
| Counting.TallyCounts | log_parser.py:22 | The tally holds each key once, with its exact multiplicity (at least 1), for exactly the keys counted. Its counts add up to the number of keys. |
| Counting.SortByCountPermutes | log_parser.py:24 | Sorting by count only reorders the entries: same multiset, same keys, same total. |
| Counting.SortByCountOrders | log_parser.py:24 | The sorted table is in descending count order and keeps keys distinct. |
| Counting.RankedTallyFacts | log_parser.py:22-24 | A ranked tally holds each key once, with its multiplicity, largest count first, and its total is the number of keys. |
| Counting.RankedTallyKeys | log_parser.py:23 | A key has an entry iff it occurs in the counted list. |
| Text.ParseInt | log_parser.py:52 | A string `int()` accepts ends, once stripped, in a digit, has at most 4300 digits after its sign, and gives a negative result only after a leading '-'. |
| Text.PaddedNumeralParses | log_parser.py:52 | `int()` accepts a whitespace-padded numeral made of an optional '+' or '-', leading zeros and digits, and reads its signed value, when it has at most 4300 digits, leading zeros included. It rejects a longer one. |
| Text.NumeralShape | log_parser.py:52 | Conversely, every string `int()` accepts is, once stripped, an optional sign, leading zeros and the canonical digits of the value's magnitude; `ParseInt`'s own contract bounds the digits by 4300. The value is not positive under a '-' sign and not negative otherwise. |
| Text.IntRoundTrip | log_parser.py:19 | `int()` of the decimal rendering of an integer gives the integer back when it has at most 4300 digits, and is rejected otherwise. |
| Text.BlankIsNotANumber | log_parser.py:52-53 | A blank string is not a number for `int()`. |
| Text.JoinLength | log_parser.py:20 | A joined pattern is as long as all the names plus one separator per gap between them. |
| Text.JoinContents | log_parser.py:20 | A joined pattern holds every name in order, name `k` starting after the names before it and one separator after each, and the separator follows every name but the last. |
| Text.JoinAppend | log_parser.py:20 | Joining two non-empty lists is joining each and separating the two halves once. |
| ExploratoryProfiler.PerformEda | log_parser.py:26-38 | The event counts add up to the rows with a name; the alarm table has at most one record per row; the alarm counts are empty when the table is (line 36) and otherwise add up to the rows with a numeric AlarmID, at most the table's length. |
| ExploratoryProfiler.EventCountsFacts | log_parser.py:28 | `event_counts` holds each present event name once, with the number of rows carrying it, largest count first. Its names are exactly the names present. |
| ExploratoryProfiler.NoNamesNoCounts | log_parser.py:28-29 | Without any event name, `event_counts` is empty. |
| ExploratoryProfiler.AlarmTableFilters | log_parser.py:31-35 | The alarm table of two row sequences in a row is the table of the first followed by that of the second, so rows keep their order. |
| ExploratoryProfiler.AlarmTablePositions | log_parser.py:31-35 | The alarm table holds one record per row whose AlarmID is not missing, in row order, with that row's timestamp, event name and raw AlarmID. |
| ExploratoryProfiler.AlarmCountsFacts | log_parser.py:32-34 | `alarm_counts` holds exactly the numeric AlarmIDs present, each once, with the number of rows carrying it, largest count first. Its total is at most the alarm table's length. |
| ExploratoryProfiler.NoAlarmsNoTable | log_parser.py:30-37 | Without any AlarmID, `alarm_counts` and `alarm_table` are both empty. |
| JobSummarizer.AnalyzeData | log_parser.py:40-79 | The summary equals `Summarize(events)`. |
| JobSummarizer.FindFirst | log_parser.py:47-57 | The loop finds the first position at or after `from` whose event passes the test, or none. |
| JobSummarizer.FindJob | log_parser.py:47-71 | The job search yields exactly the job fields of `JobPart`. |
| JobSummarizer.TimeJob | log_parser.py:58-68 | Timing sets the status and durations as `Timed` does for the two parsed timestamps. |
| JobSummarizer.TimeReadings | log_parser.py:58-68 | From the two parsed readings, the status, total and average are set as `Timed` states; every other field is kept. |
| JobSummarizer.ScanEvents | log_parser.py:72-78 | The final pass sets operators, magazines and control-state changes to those of the whole log and keeps every other field. |
| JobSummarizer.EmptyLog | log_parser.py:41-46 | An empty log gives the initial summary. |
| JobSummarizer.StatusTextDistinct | log_parser.py:44-68 | The four status texts are pairwise different. |
| JobSummarizer.NoLoadStart | log_parser.py:47-71 | Without `LOADSTART` there is no job. The lot is "Dummy/Test Panels" iff some event has CEID 120 or 127, and "N/A" otherwise. The other job fields keep their defaults. |
| JobSummarizer.JobFoundIffLoadStart | log_parser.py:47-55 | The status is "No Job Found" iff the log has no `LOADSTART` command. |
| JobSummarizer.JobStart | log_parser.py:47-55 | The first `LOADSTART` gives the start time, the panel count and the lot, and a job is found. |
| JobSummarizer.JobLotIdRule | log_parser.py:49-51 | The lot is the start event's own `LotID` when it is non-empty and not "N/A". Otherwise it is the first non-empty `LotID` in the log, and otherwise "N/A". |
| JobSummarizer.PanelCountRoundTrip | log_parser.py:52 | An integer `PanelCount` is the panel count. Given as its decimal text it is the panel count when it has at most 4300 digits, and 0 otherwise. |
| JobSummarizer.PanelCountDefault | log_parser.py:52-53 | An absent or non-numeric `PanelCount` gives 0. |
| JobSummarizer.NoEndMarker | log_parser.py:55-57 | Without CEID 131/132 at or after the start, the status is "Started but did not complete" and both durations stay 0. |
| JobSummarizer.EndMarker | log_parser.py:57-68 | The first CEID 131/132 at or after the start ends the job. An unparsable timestamp gives "Time Calculation Error" with both durations 0. Otherwise a non-negative duration is the total. The average is total / panels when panels is positive and convertible to a float. The status is "Completed", except that a recorded total with a panel count of 2^1024 - 2^970 or more (too large for a float) gives "Time Calculation Error" and an average of 0. |
| JobSummarizer.CompletedDuration | log_parser.py:60-65 | For two readable timestamps the total duration is their distance in microseconds when the end is not earlier than the start, and both durations are 0 otherwise. The status is "Completed", except "Time Calculation Error" when a total is recorded and the panel count is too large for a float. |
| JobSummarizer.TimedResult | log_parser.py:58-68 | Timing a started job sets the status and durations field by field, including the float-overflow error of the average, and keeps its lot, panels and times. |
| JobSummarizer.DurationBounds | log_parser.py:43-67 | For any log, both durations are non-negative. The average is 0 unless panels is positive and below the float limit, and is then total / panels. The average is 0 unless the job completed, and so is the total unless the panel count is too large for a float. The end time stays "N/A". |
| JobSummarizer.ScanSets | log_parser.py:72-75 | Operators and magazines are exactly the non-empty `OperatorID` / `MagazineID` values of all events. |
| JobSummarizer.StateChangesAppend | log_parser.py:76-78 | The control-state changes of two logs in a row are those of the first followed by those of the second. |
| JobSummarizer.StateChangesArePositions | log_parser.py:76-78 | One change per CEID 12/13 event, in log order, with that event's timestamp and LOCAL for 12, REMOTE for 13. |
| Timestamps.ParseTimestamp | log_parser.py:61-62 | A string the parser accepts is the formatted form of the date and time it reads, and its reading is that date-time's microsecond count, which is non-negative. |
| Timestamps.ParseFormat | log_parser.py:61-62 | Parsing a formatted valid date-time gives its fields back. |
| Timestamps.FormatParse | log_parser.py:61-62 | Every string the parser accepts is the formatted form of what it read. |
| Timestamps.MicrosOrder | log_parser.py:61-64 | The microsecond count orders valid date-times as the calendar does, so a duration is non-negative iff the end is not earlier than the start. |

## Left out

- The pandas and `Counter` machinery is modelled by its effect on rows and sequences. That includes the column projection at line 35 and the dtype of the empty results.
- The helper column `AlarmID_numeric` that line 9 writes into the caller's DataFrame is not modelled. The model computes the coerced AlarmID on demand and does not mutate its input.
- The table index is taken to be the default `0..n-1`. Line 14 slices by position with an index label, which agrees only for that index.
- A column that is absent is represented as a column whose every cell is missing. The two give the same result at lines 8, 17 and 28-29.
- ExploratoryProfiler.PerformEda: returns the projected alarm rows where line 35 raises `KeyError`. That happens when some AlarmID is present and the table has no `EventName` column. A table without a `timestamp` column cannot be represented by `Row` at all.
- `RawAlarm` keeps only what coercion decides: missing, an integer, or not numeric. Fractional alarm IDs, and floats in general, are not modelled.
- An event name that is present but not a string is not modelled. A missing name in a warning is the `TypeError` of `str.join` (`Failure(NamelessWarning)`).
- Counting.SortByCount: orders ties stably by first occurrence. `sort_values` and `value_counts` do not promise any tie order, so the model fixes one of the orders they may produce.
- JobSummarizer.Summary: durations are whole microseconds and the average is floored. The two-decimal `round()` of seconds (lines 65, 67) is floating point and is not modelled. Of the float division at line 67, only the `OverflowError` for a panel count too large for a float is modelled.
- Timestamps.ParseTimestamp: accepts only the canonical fixed-width form. `strptime` also accepts one-digit fields and a 1-6 digit fraction; those forms are read as "Time Calculation Error" here.
- Text.ParseInt: covers ASCII whitespace (including the separators 0x1C-0x1F), an optional sign and ASCII digits. Non-ASCII whitespace, underscores and non-ASCII digits that Python's `int()` also accepts are left out. The digit limit is the default 4300 of `sys.set_int_max_str_digits`; a changed setting is not modelled.
- Details values are absent, strings or integers. A JSON null is taken as absent, which every use in `analyze_data` treats alike. Floats, booleans and nested values are left out.
- JobSummarizer.Event: always has a timestamp and a `details` mapping, so a missing one cannot be represented. In the source, a missing `timestamp` raises `KeyError` on the first `LOADSTART` (line 54) and on a CEID 12/13 event (line 77). On the end event (line 62) the bare `except` at line 68 turns it into "Time Calculation Error". Other events never read their timestamp. A `details` that is not a mapping raises at its first `.get`.
- The bare `except` at lines 52-53 catches any error of `int()`. The model covers the errors that a string or absent value can cause.
- `events.index(start_event)` (line 56) finds the first event equal to the start event. Any such event is itself a `LOADSTART`, so the model uses the position of the first `LOADSTART`.
- A negative `PanelCount` (for example "-3") is kept as the code keeps it. It leaves the average at 0 because of the check at line 66.
