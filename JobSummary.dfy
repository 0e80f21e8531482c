/**
 * The job summary and the whole run: extraction, the stage table, and the
 * total job execution time, the latest stage end minus the earliest stage
 * start.
 */
module JobSummary {
  import opened Wrappers
  import opened EventLog
  import opened Extraction
  import opened Aggregation

  /** `stage_metrics['stage_start'].min()`, missing values skipped. */
  function JobStart(stages: seq<StageMetrics>): Option<int>
  {
    MinOf(stages, StageStart)
  }

  /** `stage_metrics['stage_end'].max()`, missing values skipped. */
  function JobEnd(stages: seq<StageMetrics>): Option<int>
  {
    MaxOf(stages, StageEnd)
  }

  /** `total_job_time = job_end - job_start`; missing if either is. */
  function TotalJobTime(stages: seq<StageMetrics>): Option<int>
  {
    Difference(JobEnd(stages), JobStart(stages))
  }

  /** The task rows that belong to some stage (a null stage id belongs to none). */
  function Staged(rows: seq<Row>): (staged: seq<Row>)
    ensures forall row :: row in staged <==> row in rows && row.stageId.Some?
  {
    Filter(rows, (row: Row) => row.stageId.Some?)
  }

  /**
   * In any table whose durations are end minus start, the total is at least
   * every stage's duration.
   */
  lemma TotalCoversDurations(stages: seq<StageMetrics>)
    requires forall m :: m in stages ==> m.stageDuration == Difference(StageEnd(m), StageStart(m))
    ensures forall m :: m in stages && m.stageDuration.Some? ==>
      TotalJobTime(stages).Some? && m.stageDuration.value <= TotalJobTime(stages).value
  {
    forall m | m in stages && m.stageDuration.Some?
      ensures TotalJobTime(stages).Some? && m.stageDuration.value <= TotalJobTime(stages).value
    {
      assert StageStart(m).Some? && StageEnd(m).Some?;
    }
  }

  /**
   * No stage lasts longer than the job: whenever a stage has a duration, the
   * job has a total, and the total is at least that duration.
   */
  lemma TotalCoversEveryStage(rows: seq<Row>)
    requires |rows| > 0
    ensures forall m :: m in Aggregate(rows).value && m.stageDuration.Some? ==>
      TotalJobTime(Aggregate(rows).value).Some? && m.stageDuration.value <= TotalJobTime(Aggregate(rows).value).value
  {
    var stages := Aggregate(rows).value;
    forall m | m in stages ensures m.stageDuration == Difference(StageEnd(m), StageStart(m)) {
      assert m == MetricsOf(rows, m.stageId);
    }
    TotalCoversDurations(stages);
  }

  /**
   * The job starts at the earliest launch time of any task row that belongs
   * to a stage, and ends at the latest finish time of any such row.
   */
  lemma JobSpanOfTaskRows(rows: seq<Row>)
    requires |rows| > 0
    ensures JobStart(Aggregate(rows).value) == MinOf(Staged(rows), LaunchTime)
    ensures JobEnd(Aggregate(rows).value) == MaxOf(Staged(rows), FinishTime)
  {
    var stages := Aggregate(rows).value;
    var staged := Staged(rows);
    // every staged row lies in the group of a stage of the table
    forall row | row in staged
      ensures exists m :: m in stages && m.stageId == row.stageId.value
    {
      assert HasStage(rows, row.stageId.value);
      var k :| 0 <= k < |stages| && stages[k].stageId == row.stageId.value;
      assert stages[k] in stages;
    }
    EarliestLaunch(rows, stages, staged);
    LatestFinish(rows, stages, staged);
  }

  /**
   * Two columns each of whose present values is at least the other's
   * minimum have the same minimum.
   */
  lemma SameMin<T(!new), U(!new)>(xs: seq<T>, f: T -> Option<int>, ys: seq<U>, g: U -> Option<int>)
    requires forall x :: x in xs && f(x).Some? ==> MinOf(ys, g).Some? && MinOf(ys, g).value <= f(x).value
    requires forall y :: y in ys && g(y).Some? ==> MinOf(xs, f).Some? && MinOf(xs, f).value <= g(y).value
    ensures MinOf(xs, f) == MinOf(ys, g)
  {
    var a, b := MinOf(xs, f), MinOf(ys, g);
    if a.Some? {
      var x :| x in xs && f(x) == a;
    }
    if b.Some? {
      var y :| y in ys && g(y) == b;
    }
  }

  /**
   * Two columns each of whose present values is at most the other's
   * maximum have the same maximum.
   */
  lemma SameMax<T(!new), U(!new)>(xs: seq<T>, f: T -> Option<int>, ys: seq<U>, g: U -> Option<int>)
    requires forall x :: x in xs && f(x).Some? ==> MaxOf(ys, g).Some? && f(x).value <= MaxOf(ys, g).value
    requires forall y :: y in ys && g(y).Some? ==> MaxOf(xs, f).Some? && g(y).value <= MaxOf(xs, f).value
    ensures MaxOf(xs, f) == MaxOf(ys, g)
  {
    var a, b := MaxOf(xs, f), MaxOf(ys, g);
    if a.Some? {
      var x :| x in xs && f(x) == a;
    }
    if b.Some? {
      var y :| y in ys && g(y) == b;
    }
  }

  lemma EarliestLaunch(rows: seq<Row>, stages: seq<StageMetrics>, staged: seq<Row>)
    requires |rows| > 0 && stages == Aggregate(rows).value && staged == Staged(rows)
    requires forall row :: row in staged ==> exists m :: m in stages && m.stageId == row.stageId.value
    ensures JobStart(stages) == MinOf(staged, LaunchTime)
  {
    var first := MinOf(staged, LaunchTime);
    forall m | m in stages && StageStart(m).Some?
      ensures first.Some? && first.value <= StageStart(m).value
    {
      assert m == MetricsOf(rows, m.stageId);
      StageSpanMeaning(rows, m.stageId);
      var row :| row in rows && row.stageId == Some(m.stageId) && row.launchTime == m.stageStart;
      assert row in staged;
    }
    forall row | row in staged && LaunchTime(row).Some?
      ensures JobStart(stages).Some? && JobStart(stages).value <= LaunchTime(row).value
    {
      var m :| m in stages && m.stageId == row.stageId.value;
      assert m == MetricsOf(rows, m.stageId);
      StageSpanMeaning(rows, m.stageId);
    }
    SameMin(stages, StageStart, staged, LaunchTime);
  }

  lemma LatestFinish(rows: seq<Row>, stages: seq<StageMetrics>, staged: seq<Row>)
    requires |rows| > 0 && stages == Aggregate(rows).value && staged == Staged(rows)
    requires forall row :: row in staged ==> exists m :: m in stages && m.stageId == row.stageId.value
    ensures JobEnd(stages) == MaxOf(staged, FinishTime)
  {
    var last := MaxOf(staged, FinishTime);
    forall m | m in stages && StageEnd(m).Some?
      ensures last.Some? && StageEnd(m).value <= last.value
    {
      assert m == MetricsOf(rows, m.stageId);
      StageSpanMeaning(rows, m.stageId);
      var row :| row in rows && row.stageId == Some(m.stageId) && row.finishTime == m.stageEnd;
      assert row in staged;
    }
    forall row | row in staged && FinishTime(row).Some?
      ensures JobEnd(stages).Some? && FinishTime(row).value <= JobEnd(stages).value
    {
      var m :| m in stages && m.stageId == row.stageId.value;
      assert m == MetricsOf(rows, m.stageId);
      StageSpanMeaning(rows, m.stageId);
    }
    SameMax(stages, StageEnd, staged, FinishTime);
  }

  /**
   * A job with a task that was launched no later than it finished has a
   * total execution time, and it is not negative.
   */
  lemma TotalNotNegative(rows: seq<Row>, row: Row)
    requires row in rows && row.stageId.Some?
    requires row.launchTime.Some? && row.finishTime.Some? && row.launchTime.value <= row.finishTime.value
    ensures Aggregate(rows).Ok?
    ensures TotalJobTime(Aggregate(rows).value).Some? && TotalJobTime(Aggregate(rows).value).value >= 0
  {
    JobSpanOfTaskRows(rows);
    assert row in Staged(rows);
  }

  /** The figures the script prints and charts. */
  datatype Report = Report(stages: seq<StageMetrics>, totalJobTime: Option<int>)

  /**
   * The whole run over the parse outcomes of the log's lines: the stage
   * table and total job time, or the exception that ended the script.
   */
  method Analyze(lines: seq<Line>) returns (result: Result<Report, Failure>)
    ensures FirstFailure(lines).Some? ==> result == Err(FirstFailure(lines).value)
    ensures FirstFailure(lines).None? && |Retained(lines)| == 0 ==> result == Err(KeyError("finish_time"))
    ensures result.Ok? <==> FirstFailure(lines).None? && |Retained(lines)| > 0
    ensures result.Ok? ==> result.value.stages == Aggregate(Retained(lines)).value
    ensures result.Ok? ==> result.value.totalJobTime == TotalJobTime(result.value.stages)
  {
    var taskData := ExtractTaskEvents(lines);
    if taskData.Err? {
      return Err(taskData.error);
    }
    var stageMetrics := Aggregate(taskData.value);
    if stageMetrics.Err? {
      return Err(stageMetrics.error);
    }
    result := Ok(Report(stageMetrics.value, TotalJobTime(stageMetrics.value)));
  }

  /**
   * A log whose only kept record is one task of some stage, among any number
   * of unparseable lines and unrelated events, gives a one-row stage table.
   */
  lemma OneStageAmongNoise(lines: seq<Line>, i: nat)
    requires i < |lines|
    requires Outcome(lines[i]).Ok? && Outcome(lines[i]).value.Some?
    requires Outcome(lines[i]).value.value.stageId.Some?
    requires forall j :: 0 <= j < |lines| && j != i ==> Outcome(lines[j]) == Ok(None)
    ensures FirstFailure(lines).None?
    ensures var row := Outcome(lines[i]).value.value;
      Aggregate(Retained(lines)) == Ok([MetricsOf([row], row.stageId.value)])
  {
    OneRecordAmongNoise(lines, i);
    var row := Outcome(lines[i]).value.value;
    assert [row][1..] == [];
    assert StageIds([row]) == [row.stageId.value];
    SingleStageTable([row], row.stageId.value);
  }

  /** A log with no kept record at all ends in the missing-column exception. */
  lemma NoTaskRecordsNoMetrics(lines: seq<Line>)
    requires forall j :: 0 <= j < |lines| ==> Outcome(lines[j]) == Ok(None)
    ensures FirstFailure(lines).None? && Aggregate(Retained(lines)) == Err(KeyError("finish_time"))
  {
    SkippedLinesYieldNothing(lines);
  }

  /**
   * Task rows that all have a null stage id form no group: the stage table
   * is empty and the total is missing, without an exception.
   */
  lemma UnstagedRowsGiveEmptyTable(rows: seq<Row>)
    requires |rows| > 0
    requires forall row :: row in rows ==> row.stageId.None?
    ensures Aggregate(rows) == Ok([])
    ensures TotalJobTime(Aggregate(rows).value).None?
  {
    NoStageIds(rows);
  }

  lemma {:induction false} NoStageIds(rows: seq<Row>)
    requires forall row :: row in rows ==> row.stageId.None?
    ensures StageIds(rows) == []
  {
    if |rows| > 0 {
      assert rows[0] in rows;
      assert forall row :: row in rows[1..] ==> row in rows;
      NoStageIds(rows[1..]);
    }
  }
}
