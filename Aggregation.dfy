/**
 * Stage aggregation: the per-row execution time, the grouping of rows by
 * stage id, and the per-stage min, max and mean that pandas computes while
 * skipping missing values column by column.
 */
module Aggregation {
  import opened Wrappers
  import opened EventLog

  /** `finish_time - launch_time` of a row; missing when either operand is. */
  function ExecTime(row: Row): (d: Option<int>)
    ensures d.Some? <==> row.launchTime.Some? && row.finishTime.Some?
    ensures d.Some? ==> row.launchTime.value + d.value == row.finishTime.value
  {
    if row.launchTime.Some? && row.finishTime.Some?
    then Some(row.finishTime.value - row.launchTime.value)
    else None
  }

  function LaunchTime(row: Row): Option<int> { row.launchTime }

  function FinishTime(row: Row): Option<int> { row.finishTime }

  /** Subtraction that yields a missing value when either operand is missing. */
  function Difference(a: Option<int>, b: Option<int>): (d: Option<int>)
    ensures d.Some? <==> a.Some? && b.Some?
    ensures d.Some? ==> b.value + d.value == a.value
  {
    if a.Some? && b.Some? then Some(a.value - b.value) else None
  }

  /** The elements of `xs` that satisfy `p`, in their original order. */
  function Filter<T(!new)>(xs: seq<T>, p: T -> bool): (ys: seq<T>)
    ensures forall y :: y in ys <==> y in xs && p(y)
    ensures |ys| <= |xs|
  {
    if |xs| == 0 then []
    else (if p(xs[0]) then [xs[0]] else []) + Filter(xs[1..], p)
  }

  /** Filtering keeps every selected row as many times as it occurs, and no other row. */
  lemma {:induction false} FilterMultiset<T(!new)>(xs: seq<T>, p: T -> bool)
    ensures forall y :: multiset(Filter(xs, p))[y] == if p(y) then multiset(xs)[y] else 0
  {
    if |xs| > 0 {
      FilterMultiset(xs[1..], p);
      assert xs == [xs[0]] + xs[1..];
    }
  }

  /** Filtering keeps the order of the rows: it distributes over concatenation. */
  lemma {:induction false} FilterAppend<T(!new)>(a: seq<T>, b: seq<T>, p: T -> bool)
    ensures Filter(a + b, p) == Filter(a, p) + Filter(b, p)
  {
    if |a| == 0 {
      assert a + b == b;
    } else {
      assert (a + b)[0] == a[0];
      assert (a + b)[1..] == a[1..] + b;
      FilterAppend(a[1..], b, p);
    }
  }

  /** The rows of a column whose value is present. */
  function HasValue<T>(f: T -> Option<int>): T -> bool
  {
    (x: T) => f(x).Some?
  }

  /** Column minimum with missing values skipped; missing if every value is. */
  function MinOf<T(!new)>(xs: seq<T>, f: T -> Option<int>): (m: Option<int>)
    ensures m.None? <==> forall x :: x in xs ==> f(x).None?
    ensures m.Some? ==> exists x :: x in xs && f(x) == m
    ensures m.Some? ==> forall x :: x in xs && f(x).Some? ==> m.value <= f(x).value
  {
    if |xs| == 0 then None
    else
      var rest := MinOf(xs[1..], f);
      assert forall x :: x in xs <==> x == xs[0] || x in xs[1..];
      match f(xs[0])
      case None => rest
      case Some(v) => if rest.Some? && rest.value < v then rest else Some(v)
  }

  /** Column maximum with missing values skipped; missing if every value is. */
  function MaxOf<T(!new)>(xs: seq<T>, f: T -> Option<int>): (m: Option<int>)
    ensures m.None? <==> forall x :: x in xs ==> f(x).None?
    ensures m.Some? ==> exists x :: x in xs && f(x) == m
    ensures m.Some? ==> forall x :: x in xs && f(x).Some? ==> f(x).value <= m.value
  {
    if |xs| == 0 then None
    else
      var rest := MaxOf(xs[1..], f);
      assert forall x :: x in xs <==> x == xs[0] || x in xs[1..];
      match f(xs[0])
      case None => rest
      case Some(v) => if rest.Some? && rest.value > v then rest else Some(v)
  }

  /** The number of present values in a column. */
  function CountOf<T(!new)>(xs: seq<T>, f: T -> Option<int>): (n: nat)
    ensures n == 0 <==> forall x :: x in xs ==> f(x).None?
    ensures n <= |xs|
  {
    if |xs| == 0 then 0
    else
      assert forall x :: x in xs <==> x == xs[0] || x in xs[1..];
      (if f(xs[0]).Some? then 1 else 0) + CountOf(xs[1..], f)
  }

  /** The count of a column is the number of its rows whose value is present. */
  lemma {:induction false} CountOfCountsPresent<T(!new)>(xs: seq<T>, f: T -> Option<int>)
    ensures CountOf(xs, f) == |Filter(xs, HasValue(f))|
  {
    if |xs| > 0 {
      CountOfCountsPresent(xs[1..], f);
    }
  }

  /** The sum of the present values in a column. */
  function SumOf<T>(xs: seq<T>, f: T -> Option<int>): int
  {
    if |xs| == 0 then 0
    else (if f(xs[0]).Some? then f(xs[0]).value else 0) + SumOf(xs[1..], f)
  }

  /** Column mean with missing values skipped, in exact arithmetic. */
  function MeanOf<T(!new)>(xs: seq<T>, f: T -> Option<int>): (a: Option<real>)
    ensures a.Some? <==> exists x :: x in xs && f(x).Some?
  {
    var n := CountOf(xs, f);
    if n == 0 then None else Some(SumOf(xs, f) as real / n as real)
  }

  /** A present mean times the number of present values is their sum. */
  lemma MeanIsSumOverCount<T(!new)>(xs: seq<T>, f: T -> Option<int>)
    ensures MeanOf(xs, f).Some? ==> MeanOf(xs, f).value * CountOf(xs, f) as real == SumOf(xs, f) as real
  {
    if MeanOf(xs, f).Some? {
      var n, t := CountOf(xs, f) as real, SumOf(xs, f) as real;
      assert n != 0.0 && MeanOf(xs, f).value == t / n;
    }
  }

  /** Sums and counts of a column add up over a concatenation of rows. */
  lemma {:induction false} ColumnAppend<T(!new)>(a: seq<T>, b: seq<T>, f: T -> Option<int>)
    ensures SumOf(a + b, f) == SumOf(a, f) + SumOf(b, f)
    ensures CountOf(a + b, f) == CountOf(a, f) + CountOf(b, f)
  {
    if |a| == 0 {
      assert a + b == b;
    } else {
      assert (a + b)[0] == a[0];
      assert (a + b)[1..] == a[1..] + b;
      ColumnAppend(a[1..], b, f);
    }
  }

  /**
   * The present values of a column, counted and summed, lie between `lo`
   * and `hi` times their number.
   */
  lemma {:induction false} SumBetween<T(!new)>(xs: seq<T>, f: T -> Option<int>, lo: int, hi: int)
    requires forall x :: x in xs && f(x).Some? ==> lo <= f(x).value <= hi
    ensures CountOf(xs, f) * lo <= SumOf(xs, f) <= CountOf(xs, f) * hi
  {
    if |xs| > 0 {
      assert forall x :: x in xs[1..] ==> x in xs;
      SumBetween(xs[1..], f, lo, hi);
      if f(xs[0]).Some? {
        assert xs[0] in xs;
        MultiplySucc(CountOf(xs[1..], f), lo);
        MultiplySucc(CountOf(xs[1..], f), hi);
      }
    }
  }

  lemma MultiplySucc(c: int, k: int)
    ensures (c + 1) * k == c * k + k
  {
  }

  /** A quotient of a sum bounded by `n * lo` and `n * hi` lies between `lo` and `hi`. */
  lemma QuotientBetween(s: int, n: int, lo: int, hi: int)
    requires n > 0 && n * lo <= s <= n * hi
    ensures lo as real <= s as real / n as real <= hi as real
  {
    var q := s as real / n as real;
    assert q * n as real == s as real;
    assert (n * lo) as real == n as real * lo as real;
    assert (n * hi) as real == n as real * hi as real;
  }

  /** A mean of present values lies between their minimum and their maximum. */
  lemma MeanBetweenMinAndMax<T(!new)>(xs: seq<T>, f: T -> Option<int>)
    ensures MeanOf(xs, f).Some? <==> MaxOf(xs, f).Some?
    ensures MeanOf(xs, f).Some? ==>
      MinOf(xs, f).value as real <= MeanOf(xs, f).value <= MaxOf(xs, f).value as real
  {
    if MeanOf(xs, f).Some? {
      SumBetween(xs, f, MinOf(xs, f).value, MaxOf(xs, f).value);
      QuotientBetween(SumOf(xs, f), CountOf(xs, f), MinOf(xs, f).value, MaxOf(xs, f).value);
    }
  }

  /** Ids ordered strictly ascending (so also without repetition). */
  predicate Ascending(ids: seq<int>)
  {
    forall i, j :: 0 <= i < j < |ids| ==> ids[i] < ids[j]
  }

  /** Insert `x` into an ascending sequence unless it is already there. */
  function Insert(x: int, ids: seq<int>): seq<int>
  {
    if |ids| == 0 then [x]
    else if x < ids[0] then [x] + ids
    else if x == ids[0] then ids
    else [ids[0]] + Insert(x, ids[1..])
  }

  /** The tail of an ascending sequence is ascending. */
  lemma AscendingTail(ids: seq<int>)
    requires |ids| > 0 && Ascending(ids)
    ensures Ascending(ids[1..])
  {
    var tail := ids[1..];
    forall i, j | 0 <= i < j < |tail| ensures tail[i] < tail[j] {
      assert tail[i] == ids[i + 1] && tail[j] == ids[j + 1];
    }
  }

  /** An id below every element of an ascending sequence can go in front. */
  lemma AscendingCons(x: int, ids: seq<int>)
    requires Ascending(ids)
    requires forall y :: y in ids ==> x < y
    ensures Ascending([x] + ids)
  {
    var r := [x] + ids;
    forall i, j | 0 <= i < j < |r| ensures r[i] < r[j] {
      assert r[j] == ids[j - 1];
      if i == 0 {
        assert r[j] in ids;
      } else {
        assert r[i] == ids[i - 1];
      }
    }
  }

  /** Insertion keeps the sequence ascending and adds `x` and nothing else. */
  lemma {:induction false} InsertAscending(x: int, ids: seq<int>)
    requires Ascending(ids)
    ensures Ascending(Insert(x, ids))
    ensures forall y :: y in Insert(x, ids) <==> y == x || y in ids
  {
    if |ids| > 0 && x > ids[0] {
      var tail := ids[1..];
      AscendingTail(ids);
      InsertAscending(x, tail);
      var rest := Insert(x, tail);
      forall y | y in rest ensures ids[0] < y {
        if y != x {
          var j :| 0 <= j < |tail| && tail[j] == y;
          assert ids[j + 1] == y;
        }
      }
      AscendingCons(ids[0], rest);
      assert ids == [ids[0]] + tail;
    } else if |ids| > 0 && x < ids[0] {
      forall y | y in ids ensures x < y {
        var j :| 0 <= j < |ids| && ids[j] == y;
        assert ids[0] <= ids[j];
      }
      AscendingCons(x, ids);
    }
  }

  /** Some row of `rows` belongs to stage `s`. */
  ghost predicate HasStage(rows: seq<Row>, s: int)
  {
    exists row :: row in rows && row.stageId == Some(s)
  }

  /**
   * The groups of `groupby('stage_id')`, in its default ascending order:
   * every stage id of some row, once. A row whose stage id is null belongs
   * to no group.
   */
  function StageIds(rows: seq<Row>): (ids: seq<int>)
    ensures Ascending(ids)
    ensures forall s :: s in ids <==> HasStage(rows, s)
  {
    if |rows| == 0 then []
    else
      var rest := StageIds(rows[1..]);
      assert forall row :: row in rows <==> row == rows[0] || row in rows[1..];
      if rows[0].stageId.Some? then
        InsertAscending(rows[0].stageId.value, rest);
        Insert(rows[0].stageId.value, rest)
      else rest
  }

  /** The rows of stage `s`, in task-list order. */
  function Group(rows: seq<Row>, s: int): (g: seq<Row>)
    ensures forall row :: row in g <==> row in rows && row.stageId == Some(s)
  {
    Filter(rows, (row: Row) => row.stageId == Some(s))
  }

  /** A stage's group holds each of the stage's rows as many times as the task list does. */
  lemma GroupMultiset(rows: seq<Row>, s: int)
    ensures forall row :: multiset(Group(rows, s))[row] == if row.stageId == Some(s) then multiset(rows)[row] else 0
  {
    FilterMultiset(rows, (row: Row) => row.stageId == Some(s));
  }

  /** One row of the stage table. */
  datatype StageMetrics = StageMetrics(
    stageId: int,
    stageStart: Option<int>,     // min launch_time
    stageEnd: Option<int>,       // max finish_time
    taskAvg: Option<real>,       // mean exec_time_ms
    taskMax: Option<int>,        // max exec_time_ms
    stageDuration: Option<int>)  // stage_end - stage_start

  function StageStart(m: StageMetrics): Option<int> { m.stageStart }

  function StageEnd(m: StageMetrics): Option<int> { m.stageEnd }

  /** The stage-table row of stage `s`. */
  function MetricsOf(rows: seq<Row>, s: int): (m: StageMetrics)
    ensures m.stageId == s
  {
    var g := Group(rows, s);
    StageMetrics(s, MinOf(g, LaunchTime), MaxOf(g, FinishTime), MeanOf(g, ExecTime), MaxOf(g, ExecTime),
                 Difference(MaxOf(g, FinishTime), MinOf(g, LaunchTime)))
  }

  /**
   * What the span columns of a stage's row mean, in terms of the task rows
   * of that stage: the earliest present launch time, the latest present
   * finish time, each absent when no row has one, and their difference.
   */
  lemma StageSpanMeaning(rows: seq<Row>, s: int)
    ensures var m := MetricsOf(rows, s);
      // stage_start: the earliest launch time of the stage's rows that have one
      && (m.stageStart.None? <==> forall row :: row in rows && row.stageId == Some(s) ==> row.launchTime.None?)
      && (m.stageStart.Some? ==> exists row :: row in rows && row.stageId == Some(s) && row.launchTime == m.stageStart)
      && (m.stageStart.Some? ==> forall row :: row in rows && row.stageId == Some(s) && row.launchTime.Some? ==>
            m.stageStart.value <= row.launchTime.value)
      // stage_end: the latest finish time of the stage's rows that have one
      && (m.stageEnd.None? <==> forall row :: row in rows && row.stageId == Some(s) ==> row.finishTime.None?)
      && (m.stageEnd.Some? ==> exists row :: row in rows && row.stageId == Some(s) && row.finishTime == m.stageEnd)
      && (m.stageEnd.Some? ==> forall row :: row in rows && row.stageId == Some(s) && row.finishTime.Some? ==>
            row.finishTime.value <= m.stageEnd.value)
      // stage_duration_ms
      && m.stageDuration == Difference(m.stageEnd, m.stageStart)
  {
  }

  /**
   * What task_max means: the longest execution time among the stage's rows
   * with both timestamps, absent when there is none.
   */
  lemma TaskMaxMeaning(rows: seq<Row>, s: int)
    ensures var m := MetricsOf(rows, s);
      && (m.taskMax.None? <==> forall row :: row in rows && row.stageId == Some(s) ==> ExecTime(row).None?)
      && (m.taskMax.Some? ==> exists row :: row in rows && row.stageId == Some(s) && ExecTime(row) == m.taskMax)
      && (m.taskMax.Some? ==> forall row :: row in rows && row.stageId == Some(s) && ExecTime(row).Some? ==>
            ExecTime(row).value <= m.taskMax.value)
  {
  }

  /** task_avg is present exactly when task_max is, and is never above it. */
  lemma TaskAvgBelowMax(rows: seq<Row>, s: int)
    ensures var m := MetricsOf(rows, s);
      && (m.taskAvg.Some? <==> m.taskMax.Some?)
      && (m.taskAvg.Some? ==> m.taskAvg.value <= m.taskMax.value as real)
  {
    MeanBetweenMinAndMax(Group(rows, s), ExecTime);
  }

  /**
   * task_avg is the sum of the stage's execution times divided by their
   * count, which is positive whenever task_avg is present.
   */
  lemma TaskAvgIsMean(rows: seq<Row>, s: int)
    ensures var m, g := MetricsOf(rows, s), Group(rows, s);
      m.taskAvg.Some? ==>
        && CountOf(g, ExecTime) > 0
        && m.taskAvg.value == SumOf(g, ExecTime) as real / CountOf(g, ExecTime) as real
  {
  }

  /** The stage-table rows of the stages `ids`, in the same order. */
  function Table(rows: seq<Row>, ids: seq<int>): (t: seq<StageMetrics>)
    ensures |t| == |ids|
    ensures forall k :: 0 <= k < |ids| ==> t[k] == MetricsOf(rows, ids[k])
  {
    if |ids| == 0 then [] else [MetricsOf(rows, ids[0])] + Table(rows, ids[1..])
  }

  /**
   * The stage table: one row per stage id, ascending. With no task rows at
   * all the frame has no columns and the first column lookup raises.
   */
  function Aggregate(rows: seq<Row>): (r: Result<seq<StageMetrics>, Failure>)
    ensures r.Err? <==> |rows| == 0
    ensures r.Err? ==> r.error == KeyError("finish_time")
    ensures r.Ok? ==> forall i, j :: 0 <= i < j < |r.value| ==> r.value[i].stageId < r.value[j].stageId
    ensures r.Ok? ==> forall s :: HasStage(rows, s) <==> exists k :: 0 <= k < |r.value| && r.value[k].stageId == s
    ensures r.Ok? ==> forall k :: 0 <= k < |r.value| ==> r.value[k] == MetricsOf(rows, r.value[k].stageId)
  {
    if |rows| == 0 then Err(KeyError("finish_time"))
    else
      var ids := StageIds(rows);
      var table := Table(rows, ids);
      assert forall k :: 0 <= k < |ids| ==> table[k].stageId == ids[k];
      Ok(table)
  }

  /**
   * A stage that holds a row launched no later than it finished starts no
   * later than it ends, so its duration is present and not negative.
   */
  lemma StageStartNotAfterEnd(rows: seq<Row>, s: int, row: Row)
    requires row in rows && row.stageId == Some(s)
    requires row.launchTime.Some? && row.finishTime.Some? && row.launchTime.value <= row.finishTime.value
    ensures MetricsOf(rows, s).stageStart.value <= MetricsOf(rows, s).stageEnd.value
    ensures MetricsOf(rows, s).stageDuration.Some? && MetricsOf(rows, s).stageDuration.value >= 0
  {
    StageSpanMeaning(rows, s);
  }

  /** The three tasks of stage 1 of the worked example. */
  function ExampleRows(): seq<Row>
  {
    [Row(Some(0), Some(1), "SparkListenerTaskEnd", Some(100), Some(150)),
     Row(Some(1), Some(1), "SparkListenerTaskEnd", Some(120), Some(200)),
     Row(Some(2), Some(1), "SparkListenerTaskEnd", Some(140), Some(300))]
  }

  lemma ExampleGrouping()
    ensures StageIds(ExampleRows()) == [1]
    ensures Group(ExampleRows(), 1) == ExampleRows()
  {
    var rows := ExampleRows();
    assert rows[1..][1..][1..] == [];
    var p := (row: Row) => row.stageId == Some(1);
    assert Filter(rows[1..][1..], p) == rows[1..][1..];
    assert Filter(rows[1..], p) == rows[1..];
  }

  /** The worked example's execution times: three of them, summing to 290. */
  lemma ExampleExecTimes()
    ensures CountOf(ExampleRows(), ExecTime) == 3
    ensures SumOf(ExampleRows(), ExecTime) == 290
  {
    var rows := ExampleRows();
    assert rows[1..][1..][1..] == [];
  }

  /** The worked example's longest execution time. */
  lemma ExampleLongestTask()
    ensures MaxOf(ExampleRows(), ExecTime) == Some(160)
  {
    var rows := ExampleRows();
    assert rows[1..][1..][1..] == [];
  }

  /** The worked example's earliest launch. */
  lemma ExampleStart()
    ensures MinOf(ExampleRows(), LaunchTime) == Some(100)
  {
    var rows := ExampleRows();
    assert rows[1..][1..][1..] == [];
  }

  /** The worked example's latest finish. */
  lemma ExampleEnd()
    ensures MaxOf(ExampleRows(), FinishTime) == Some(300)
  {
    var rows := ExampleRows();
    assert rows[1..][1..][1..] == [];
  }

  /** The stage-table row of the worked example's stage. */
  lemma ExampleMetrics()
    ensures MetricsOf(ExampleRows(), 1) ==
      StageMetrics(1, Some(100), Some(300), Some(290 as real / 3 as real), Some(160), Some(200))
  {
    ExampleGrouping();
    ExampleExecTimes();
    ExampleLongestTask();
    ExampleStart();
    ExampleEnd();
  }

  /**
   * The worked example: tasks (100, 150), (120, 200) and (140, 300) of stage
   * 1 give execution times 50, 80 and 160, so the mean is 290/3.
   */
  lemma ThreeTaskStage()
    ensures Aggregate(ExampleRows()) ==
      Ok([StageMetrics(1, Some(100), Some(300), Some(290 as real / 3 as real), Some(160), Some(200))])
  {
    ExampleGrouping();
    ExampleMetrics();
    SingleStageTable(ExampleRows(), 1);
  }

  /** A task list whose rows all belong to stage `s` gives a one-row stage table. */
  lemma SingleStageTable(rows: seq<Row>, s: int)
    requires |rows| > 0 && StageIds(rows) == [s]
    ensures Aggregate(rows).Ok? && Aggregate(rows).value == [MetricsOf(rows, s)]
  {
    var table := Aggregate(rows).value;
    assert table[0] == MetricsOf(rows, s);
  }
}
