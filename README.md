# Spark event-log task metrics, modelled in Dafny

`startingSparkPool.py` reads a Spark application event log, one JSON record per
line. It keeps the task start and task end records and flattens each one into a
task row `(task_id, stage_id, event, launch_time, finish_time)`. Then it
aggregates the rows per stage with pandas:

- `stage_start`, the earliest launch;
- `stage_end`, the latest finish;
- `task_avg` and `task_max` of the task execution times;
- `stage_duration_ms`.

The total job execution time is the latest stage end minus the earliest stage
start.

The project models those two pieces of logic and proves what they promise.

- `EventLog.dfy`: the data.
  - A parsed line is `Malformed`, `NonObject` or `Parsed(Record)`.
  - A JSON key lookup is `Missing`, `Null` or `Present(v)`. This keeps
    `dict.get(k, -1)` exact: an explicit null gives None and only an absent key gives -1.
  - A task row, and the uncaught exceptions that end the script.
- `Extraction.dfy`: the extraction loop.
  - `Outcome` gives the effect of one line.
  - `FirstFailure` and `Retained` are the head-first specification of a
    whole file.
  - `ExtractTaskEvents` is the imperative loop, proved against them.
  - Lemmas about skipping, keeping, ordering and aborting.
- `Aggregation.dfy`: the stage table.
  - Execution time; min, max, count, sum and mean with missing values skipped
    column by column.
  - Grouping by stage id in ascending order, with rows whose stage id is null
    in no group, as `groupby` drops NaN keys.
  - The per-stage metrics and the worked example.
- `JobSummary.dfy`: the job total and the whole run, `Analyze`.
- `OrderIndependence.dfy`: rearranging the task rows leaves the stage table
  and the job total unchanged.

Facts about the code that the model keeps:

- Worked example, tasks (100,150), (120,200) and (140,300): the mean execution
  time is 290/3.
- Missing fields: a parsed record without `Event` raises KeyError, and so does
  a task record without `Task Info`. Either exception ends the script.
- Groups: a stage whose rows carry no timestamps still gets a row in the table,
  with its metrics missing.
- Null values are skipped column by column. A row without `finish_time` still
  counts towards `stage_start`.
- The table does not depend on the order of the task rows
  (`OrderIndependence.dfy`).

## Model

| member | source | states |
|---|---|---|
| Extraction.Get | startingSparkPool.py:28-32 | `dict.get(key, default)` gives the default only for an absent key; a null value gives None and a present value is returned as is |
| Extraction.RowOf | startingSparkPool.py:27-33 | the appended row copies the event name verbatim; a present task id or stage id is copied, a null one gives None and an absent one -1; a timestamp is present in the row exactly when present in the record, with the same value |
| Extraction.LineOutcomes | startingSparkPool.py:23-35 | a line is skipped exactly when it does not parse, its event is null or not a task event name; it adds a row exactly when it is a task start or task end record with a Task Info object; a non-object line raises TypeError, a missing Event KeyError("Event"), a missing Task Info KeyError("Task Info"), a non-object Task Info AttributeError |
| Extraction.Outcome | startingSparkPool.py:23-35 | the effect of one line: an exception, a skip or one row; its meaning is stated by LineOutcomes |
| Extraction.FirstFailure | startingSparkPool.py:22-35 | the exception that ends the loop, if any; FirstFailureIsEarliest states that it is the earliest raising line's |
| Extraction.Retained | startingSparkPool.py:22-33 | the task list never has more rows than the file has lines |
| Extraction.RetainedAppend | startingSparkPool.py:27-33 | later lines never change earlier rows: the rows of two runs of lines concatenate |
| Extraction.FirstFailureAppend | startingSparkPool.py:22-26 | the exception of a concatenation is the first part's if it raises, else the second part's |
| Extraction.RetainedRowsComeFromKeptLines | startingSparkPool.py:25-33 | a row is in the task list exactly when some line keeps a record with that row |
| Extraction.FirstFailureIsEarliest | startingSparkPool.py:22-26 | the run raises exactly when some line raises, and the exception is the one of the earliest such line |
| Extraction.SkippedLineIsInert | startingSparkPool.py:23-25 | deleting a skipped line (syntax error, unrelated or null event) changes neither the rows nor the exception |
| Extraction.KeptRecordAddsOneRow | startingSparkPool.py:27-33 | a kept record adds exactly one row, after the rows of every earlier line and before those of every later one |
| Extraction.SkippedLinesYieldNothing | startingSparkPool.py:22-35 | a file of skipped lines gives no rows and no exception |
| Extraction.OneRecordAmongNoise | startingSparkPool.py:22-35 | one kept record among any number of skipped lines gives exactly its row and no exception |
| Extraction.ExtractTaskEvents | startingSparkPool.py:22-35 | the loop returns the earliest line's exception when some line raises, and otherwise the rows of the kept records in line order |
| Aggregation.ExecTime | startingSparkPool.py:43 | the execution time is present exactly when both timestamps are, and launch plus it is finish |
| Aggregation.Difference | startingSparkPool.py:53 | a difference is present exactly when both operands are, and adding it to the subtrahend gives the minuend |
| Aggregation.Filter | startingSparkPool.py:46 | the selected rows are exactly the rows that satisfy the predicate, never more than the input |
| Aggregation.FilterAppend | startingSparkPool.py:46 | selecting from a concatenation concatenates the selections, so rows keep their order |
| Aggregation.FilterMultiset | startingSparkPool.py:46 | each selected row occurs as often as in the input, and a rejected row not at all |
| Aggregation.MinOf | startingSparkPool.py:47 | the column minimum is missing exactly when every value is; otherwise it is some row's value and no present value is smaller |
| Aggregation.MaxOf | startingSparkPool.py:48 | the column maximum is missing exactly when every value is; otherwise it is some row's value and no present value is larger |
| Aggregation.CountOf | startingSparkPool.py:49 | the count of present values is zero exactly when every value is missing, and never exceeds the number of rows |
| Aggregation.CountOfCountsPresent | startingSparkPool.py:49 | the count equals the number of rows whose value is present |
| Aggregation.SumOf | startingSparkPool.py:49 | the skipna sum; ColumnAppend, ColumnPermutation and TaskAvgIsMean state its meaning |
| Aggregation.ColumnAppend | startingSparkPool.py:49 | the sum and the count over two runs of rows add up |
| Aggregation.MeanOf | startingSparkPool.py:49 | the mean is present exactly when some value is; MeanIsSumOverCount and TaskAvgIsMean state its value |
| Aggregation.MeanIsSumOverCount | startingSparkPool.py:49 | a present mean times the count of present values is their sum |
| Aggregation.SumBetween | startingSparkPool.py:49 | present values between lo and hi sum to between count·lo and count·hi |
| Aggregation.QuotientBetween | startingSparkPool.py:49 | a sum between n·lo and n·hi divided by n lies between lo and hi |
| Aggregation.MeanBetweenMinAndMax | startingSparkPool.py:47-50 | the mean is present exactly when the maximum is, and lies between the minimum and the maximum, so task_avg ≤ task_max |
| Aggregation.Insert | startingSparkPool.py:46 | inserts a group key in sorted position; InsertAscending states its meaning |
| Aggregation.InsertAscending | startingSparkPool.py:46 | inserting a stage id keeps the ids strictly ascending and adds that id and no other |
| Aggregation.StageIds | startingSparkPool.py:46 | the group keys are strictly ascending and are exactly the stage ids that some row carries, the -1 bucket included |
| Aggregation.Group | startingSparkPool.py:46 | a stage's group holds exactly the rows with that stage id |
| Aggregation.GroupMultiset | startingSparkPool.py:46 | each row of a stage occurs in its group as often as among the task rows, and a row of another stage not at all |
| Aggregation.MetricsOf | startingSparkPool.py:46-53 | a stage's row carries that stage's id |
| Aggregation.StageSpanMeaning | startingSparkPool.py:47-53 | stage_start is the minimum launch time and stage_end the maximum finish time over the stage's rows with the value present, missing exactly when no such row exists; stage_duration is stage_end minus stage_start |
| Aggregation.TaskMaxMeaning | startingSparkPool.py:50 | task_max is the largest present execution time of the stage, missing exactly when none is present |
| Aggregation.TaskAvgBelowMax | startingSparkPool.py:49-50 | task_avg is present exactly when task_max is and is never above it |
| Aggregation.TaskAvgIsMean | startingSparkPool.py:49 | a present task_avg is the stage's sum of present execution times divided by their count, which is positive |
| Aggregation.Table | startingSparkPool.py:46-51 | one metrics row per stage id, in the same order |
| Aggregation.Aggregate | startingSparkPool.py:37-51 | no rows raise KeyError("finish_time"); otherwise the table has strictly ascending stage ids, a row for exactly the stage ids that occur, and each row is that stage's metrics |
| Aggregation.StageStartNotAfterEnd | startingSparkPool.py:47-53 | a stage with a row launched no later than it finished starts no later than it ends and has a non-negative duration |
| Aggregation.ExampleGrouping | startingSparkPool.py:46 | the three example tasks form the single stage 1 |
| Aggregation.ExampleExecTimes | startingSparkPool.py:43-49 | the example's execution times are three values summing to 290 |
| Aggregation.ExampleLongestTask | startingSparkPool.py:43-50 | the example's longest task takes 160 ms |
| Aggregation.ExampleStart | startingSparkPool.py:47 | the example stage starts at 100 |
| Aggregation.ExampleEnd | startingSparkPool.py:48 | the example stage ends at 300 |
| Aggregation.ExampleMetrics | startingSparkPool.py:46-53 | the example stage's row is start 100, end 300, mean 290/3, max 160, duration 200 |
| Aggregation.ThreeTaskStage | startingSparkPool.py:43-53 | the example's whole stage table is that single row |
| Aggregation.SingleStageTable | startingSparkPool.py:46-51 | rows that all belong to one stage give a one-row table |
| JobSummary.JobStart | startingSparkPool.py:58 | the minimum stage start; JobSpanOfTaskRows and EarliestLaunch state its meaning |
| JobSummary.JobEnd | startingSparkPool.py:59 | the maximum stage end; JobSpanOfTaskRows and LatestFinish state its meaning |
| JobSummary.TotalJobTime | startingSparkPool.py:60 | job_end minus job_start; TotalCoversEveryStage and TotalNotNegative state its meaning |
| JobSummary.Staged | startingSparkPool.py:46 | the rows that join some group are exactly those with a stage id |
| JobSummary.TotalCoversDurations | startingSparkPool.py:53-60 | when every duration is end minus start, the total exists whenever a duration does and is at least that duration |
| JobSummary.TotalCoversEveryStage | startingSparkPool.py:53-60 | no stage of the table lasts longer than the job |
| JobSummary.JobSpanOfTaskRows | startingSparkPool.py:58-59 | job_start is the earliest launch of any grouped task row and job_end the latest finish of any |
| JobSummary.SameMin | startingSparkPool.py:58 | two columns whose present values each bound the other's minimum have the same minimum |
| JobSummary.SameMax | startingSparkPool.py:59 | two columns whose present values each bound the other's maximum have the same maximum |
| JobSummary.EarliestLaunch | startingSparkPool.py:58 | the minimum stage start is the minimum launch time over grouped rows |
| JobSummary.LatestFinish | startingSparkPool.py:59 | the maximum stage end is the maximum finish time over grouped rows |
| JobSummary.TotalNotNegative | startingSparkPool.py:58-60 | a job with a grouped task launched no later than it finished has a total, and it is not negative |
| JobSummary.Analyze | startingSparkPool.py:22-60 | the run raises the earliest line's exception, or KeyError("finish_time") when no task row was kept, and otherwise yields the stage table of the kept rows and its total |
| JobSummary.OneStageAmongNoise | startingSparkPool.py:22-51 | a log whose only kept record is one staged task gives the one-row table of that task |
| JobSummary.NoTaskRecordsNoMetrics | startingSparkPool.py:22-43 | a log with no kept record ends in KeyError("finish_time") |
| JobSummary.UnstagedRowsGiveEmptyTable | startingSparkPool.py:46-60 | task rows whose stage ids are all null give an empty table and no total, without an exception |
| JobSummary.NoStageIds | startingSparkPool.py:46 | rows whose stage ids are all null have no group keys |
| OrderIndependence.ColumnPermutation | startingSparkPool.py:49 | rearranging a column's rows changes neither its sum nor its count |
| OrderIndependence.MinOfWider | startingSparkPool.py:47 | a column over more rows has a minimum no larger |
| OrderIndependence.MaxOfWider | startingSparkPool.py:48 | a column over more rows has a maximum no smaller |
| OrderIndependence.MinOfSameRows | startingSparkPool.py:47 | columns over the same rows have the same minimum |
| OrderIndependence.MaxOfSameRows | startingSparkPool.py:48 | columns over the same rows have the same maximum |
| OrderIndependence.GroupPermutation | startingSparkPool.py:46 | rearranging the task rows rearranges each stage's group |
| OrderIndependence.MetricsPermutation | startingSparkPool.py:46-53 | a stage's metrics do not depend on the order of the task rows |
| OrderIndependence.AscendingUnique | startingSparkPool.py:46 | two strictly ascending key lists with the same elements are equal |
| OrderIndependence.StageIdsPermutation | startingSparkPool.py:46 | the group keys do not depend on the order of the task rows |
| OrderIndependence.AggregateIgnoresOrder | startingSparkPool.py:37-51 | the stage table, and so the job total, does not depend on the order of the task rows |

## Left out

- Opening the log file, zstd decompression and UTF-8 decoding (startingSparkPool.py:17-20) are foreign library I/O. The input is the sequence of per-line parse outcomes.
- JSON syntax (`json.loads`, startingSparkPool.py:24) is a foreign call. Only its result is modelled: a syntax error, a non-object value, or an object.
- Non-integer JSON values for `Task ID`, `Stage ID`, `Launch Time` or `Finish Time` (strings, floats, booleans) are not modelled. These fields are integers or null.
- EventLog.Record: an `Event` that is neither a string nor null is modelled as Null. Both compare unequal to every event name. A `Task Info` that is not an object is modelled as Null, since neither has a `get` method.
- pandas float64 columns are not modelled. A column that holds missing values becomes float64 in pandas, which is exact only up to 2^53; the model keeps all timestamps and differences as exact integers.
- Aggregation.Filter: its own contract states membership and length only; multiplicities are stated by `Aggregation.FilterMultiset` and order by `Aggregation.FilterAppend`.
- Aggregation.Group: its own contract states membership only; multiplicities are stated by `Aggregation.GroupMultiset`.
- Aggregation.CountOf: its own contract states zero-iff-all-missing and the bound; that it is the number of present values is stated by `Aggregation.CountOfCountsPresent`.
- Aggregation.MeanOf: its own contract states presence only; its value is stated by `Aggregation.MeanIsSumOverCount`. The mean is exact rational sum/count, not the floating-point division pandas performs.
- The conversion of stage start and end to calendar datetimes (startingSparkPool.py:54-55) is display-only and not modelled.
- JobSummary.Analyze: does not model the OutOfBoundsDatetime that `pd.to_datetime(..., unit='ms')` (startingSparkPool.py:54-55) raises for a stage start or end beyond the pandas range, about 9.2e12 ms (the year 2262). That exception ends the script before line 58; the model returns the table and total for such input.
- The `print` of the total (startingSparkPool.py:62) and the Dash/Plotly dashboard (startingSparkPool.py:67-109) are presentation and not modelled.
- Extraction.ExtractTaskEvents: the source appends to a module-level list. The model accumulates a local sequence and returns it, which is observably the same because nothing else reads the list during the loop.
