/**
 * Task-event extraction: the loop over the decompressed log lines that keeps
 * task start and task end records and appends one flat row for each.
 */
module Extraction {
  import opened Wrappers
  import opened EventLog

  const TaskStart: string := "SparkListenerTaskStart"
  const TaskEnd: string := "SparkListenerTaskEnd"

  /** The two discriminator values whose records are kept. */
  predicate IsTaskEventName(e: string)
  {
    e == TaskStart || e == TaskEnd
  }

  /** `dict.get(key, default)`: the default only when the key is absent. */
  function Get<T>(f: Field<T>, default: Option<T>): (r: Option<T>)
    ensures f.Missing? ==> r == default
    ensures f.Null? ==> r.None?
    ensures f.Present? ==> r == Some(f.value)
  {
    match f
    case Missing => default
    case Null => None
    case Present(v) => Some(v)
  }

  /** The row appended for a kept record with event name `event`. */
  function RowOf(event: string, stageId: Field<int>, info: TaskInfo): (row: Row)
    ensures row.event == event
    ensures info.taskId.Missing? ==> row.taskId == Some(-1)
    ensures info.taskId.Null? ==> row.taskId.None?
    ensures info.taskId.Present? ==> row.taskId == Some(info.taskId.value)
    ensures stageId.Missing? ==> row.stageId == Some(-1)
    ensures stageId.Null? ==> row.stageId.None?
    ensures stageId.Present? ==> row.stageId == Some(stageId.value)
    ensures row.launchTime.Some? <==> info.launchTime.Present?
    ensures row.finishTime.Some? <==> info.finishTime.Present?
    ensures info.launchTime.Present? ==> row.launchTime.value == info.launchTime.value
    ensures info.finishTime.Present? ==> row.finishTime.value == info.finishTime.value
  {
    Row(Get(info.taskId, Some(-1)), Get(stageId, Some(-1)), event,
        Get(info.launchTime, None), Get(info.finishTime, None))
  }

  /**
   * What one line does to the run: Ok(None) leaves the task list as it is,
   * Ok(Some(row)) appends `row`, and Err aborts with an uncaught exception.
   */
  function Outcome(line: Line): Result<Option<Row>, Failure>
  {
    match line
    case Malformed => Ok(None)
    case NonObject => Err(TypeError)
    case Parsed(rec) =>
      match rec.event
      case Missing => Err(KeyError("Event"))
      case Null => Ok(None)
      case Present(e) =>
        if !IsTaskEventName(e) then Ok(None)
        else
          match rec.taskInfo
          case Missing => Err(KeyError("Task Info"))
          case Null => Err(AttributeError)
          case Present(info) => Ok(Some(RowOf(e, rec.stageId, info)))
  }

  /**
   * Which lines are skipped, which add a row and which raise: only a syntax
   * error, a null or non-string "Event" or an unrelated event name leave the
   * task list alone; a task event with a "Task Info" object adds its row;
   * every other line raises.
   */
  lemma LineOutcomes(line: Line)
    ensures Outcome(line) == Ok(None) <==>
      || line.Malformed?
      || (line.Parsed? && line.record.event.Null?)
      || (line.Parsed? && line.record.event.Present? && !IsTaskEventName(line.record.event.value))
    ensures Outcome(line).Ok? && Outcome(line).value.Some? <==>
      line.Parsed? && line.record.event.Present? && IsTaskEventName(line.record.event.value)
      && line.record.taskInfo.Present?
    ensures Outcome(line).Ok? && Outcome(line).value.Some? ==>
      Outcome(line).value.value == RowOf(line.record.event.value, line.record.stageId, line.record.taskInfo.value)
    ensures line.NonObject? ==> Outcome(line) == Err(TypeError)
    ensures line.Parsed? && line.record.event.Missing? ==> Outcome(line) == Err(KeyError("Event"))
    ensures (line.Parsed? && line.record.event.Present? && IsTaskEventName(line.record.event.value)
             && line.record.taskInfo.Missing?) ==> Outcome(line) == Err(KeyError("Task Info"))
    ensures (line.Parsed? && line.record.event.Present? && IsTaskEventName(line.record.event.value)
             && line.record.taskInfo.Null?) ==> Outcome(line) == Err(AttributeError)
  {
  }

  /** The exception of the earliest line that raises, if any. */
  function FirstFailure(lines: seq<Line>): (f: Option<Failure>)
  {
    if |lines| == 0 then None
    else if Outcome(lines[0]).Err? then Some(Outcome(lines[0]).error)
    else FirstFailure(lines[1..])
  }

  /** The rows of all lines that produce one, in line order. */
  function Retained(lines: seq<Line>): (rows: seq<Row>)
    ensures |rows| <= |lines|
  {
    if |lines| == 0 then []
    else
      var here := if Outcome(lines[0]).Ok? && Outcome(lines[0]).value.Some?
                  then [Outcome(lines[0]).value.value] else [];
      here + Retained(lines[1..])
  }

  /** The rows of one line: its row if it produces one, else none. */
  lemma RetainedSingle(line: Line)
    ensures Retained([line]) ==
      if Outcome(line).Ok? && Outcome(line).value.Some? then [Outcome(line).value.value] else []
  {
    assert [line][1..] == [];
  }

  /** Earlier lines' rows are never changed by later lines: rows concatenate. */
  lemma {:induction false} RetainedAppend(a: seq<Line>, b: seq<Line>)
    ensures Retained(a + b) == Retained(a) + Retained(b)
  {
    if |a| == 0 {
      assert a + b == b;
    } else {
      assert (a + b)[0] == a[0];
      assert (a + b)[1..] == a[1..] + b;
      RetainedAppend(a[1..], b);
    }
  }

  /** The earliest exception of a concatenation is the first part's, if it has one. */
  lemma {:induction false} FirstFailureAppend(a: seq<Line>, b: seq<Line>)
    ensures FirstFailure(a + b) == if FirstFailure(a).Some? then FirstFailure(a) else FirstFailure(b)
  {
    if |a| == 0 {
      assert a + b == b;
    } else {
      assert (a + b)[0] == a[0];
      assert (a + b)[1..] == a[1..] + b;
      FirstFailureAppend(a[1..], b);
    }
  }

  /**
   * The task list holds exactly the rows of the lines that keep a record:
   * every row comes from some line, and every kept line's row is there.
   */
  lemma {:induction false} RetainedRowsComeFromKeptLines(lines: seq<Line>)
    ensures forall row :: row in Retained(lines) <==>
      exists i :: 0 <= i < |lines| && Outcome(lines[i]) == Ok(Some(row))
  {
    if |lines| > 0 {
      var tail := lines[1..];
      RetainedRowsComeFromKeptLines(tail);
      forall row ensures row in Retained(lines) <==>
        exists i :: 0 <= i < |lines| && Outcome(lines[i]) == Ok(Some(row))
      {
        if row in Retained(tail) {
          var i :| 0 <= i < |tail| && Outcome(tail[i]) == Ok(Some(row));
          assert lines[i + 1] == tail[i];
        }
        if exists i :: 0 <= i < |lines| && Outcome(lines[i]) == Ok(Some(row)) {
          var i :| 0 <= i < |lines| && Outcome(lines[i]) == Ok(Some(row));
          if i > 0 {
            assert tail[i - 1] == lines[i];
          }
        }
      }
    }
  }

  /**
   * The run raises exactly when some line raises, and the exception is the
   * one of the earliest such line.
   */
  lemma {:induction false} FirstFailureIsEarliest(lines: seq<Line>)
    ensures FirstFailure(lines).None? <==> forall i :: 0 <= i < |lines| ==> Outcome(lines[i]).Ok?
    ensures FirstFailure(lines).Some? ==>
      exists i :: 0 <= i < |lines| && Outcome(lines[i]) == Err(FirstFailure(lines).value)
        && forall j :: 0 <= j < i ==> Outcome(lines[j]).Ok?
  {
    if |lines| > 0 {
      FirstFailureIsEarliest(lines[1..]);
      if Outcome(lines[0]).Ok? {
        if FirstFailure(lines).Some? {
          var i :| 0 <= i < |lines[1..]| && Outcome(lines[1..][i]) == Err(FirstFailure(lines).value)
            && forall j :: 0 <= j < i ==> Outcome(lines[1..][j]).Ok?;
          assert Outcome(lines[i + 1]) == Err(FirstFailure(lines).value);
          assert forall j :: 0 <= j < i + 1 ==> Outcome(lines[j]).Ok? by {
            forall j | 0 <= j < i + 1 ensures Outcome(lines[j]).Ok? {
              if j > 0 { assert lines[j] == lines[1..][j - 1]; }
            }
          }
        } else {
          forall i | 0 <= i < |lines| ensures Outcome(lines[i]).Ok? {
            if i > 0 { assert lines[i] == lines[1..][i - 1]; }
          }
        }
      }
    }
  }

  /** A file is the lines before position `i`, line `i` and the lines after it. */
  lemma Pieces(lines: seq<Line>, i: nat)
    requires i < |lines|
    ensures lines == lines[..i] + [lines[i]] + lines[i + 1..]
  {
  }

  /** Splicing a skipped line between two runs of lines changes nothing. */
  lemma SpliceSkipped(before: seq<Line>, line: Line, after: seq<Line>)
    requires Outcome(line) == Ok(None)
    ensures Retained(before + [line] + after) == Retained(before + after)
    ensures FirstFailure(before + [line] + after) == FirstFailure(before + after)
  {
    assert before + [line] + after == before + ([line] + after);
    assert ([line] + after)[1..] == after;
    RetainedAppend(before, [line] + after);
    RetainedAppend(before, after);
    FirstFailureAppend(before, [line] + after);
    FirstFailureAppend(before, after);
  }

  /**
   * A line that neither raises nor produces a row (a syntax error, an
   * unrelated or null event) can be deleted without changing the run at all:
   * it is skipped and processing continues with the next line.
   */
  lemma SkippedLineIsInert(lines: seq<Line>, i: nat)
    requires i < |lines|
    requires Outcome(lines[i]) == Ok(None)
    ensures Retained(lines[..i] + lines[i + 1..]) == Retained(lines)
    ensures FirstFailure(lines[..i] + lines[i + 1..]) == FirstFailure(lines)
  {
    Pieces(lines, i);
    SpliceSkipped(lines[..i], lines[i], lines[i + 1..]);
  }

  /**
   * A kept record adds exactly one row, after the rows of all earlier lines
   * and before those of all later lines.
   */
  lemma KeptRecordAddsOneRow(lines: seq<Line>, i: nat)
    requires i < |lines|
    requires Outcome(lines[i]).Ok? && Outcome(lines[i]).value.Some?
    ensures Retained(lines) == Retained(lines[..i]) + [Outcome(lines[i]).value.value] + Retained(lines[i + 1..])
    ensures |Retained(lines)| == |Retained(lines[..i])| + 1 + |Retained(lines[i + 1..])|
  {
    assert lines == lines[..i] + [lines[i]] + lines[i + 1..];
    RetainedAppend(lines[..i] + [lines[i]], lines[i + 1..]);
    RetainedAppend(lines[..i], [lines[i]]);
    RetainedSingle(lines[i]);
  }

  /** Lines that are all skipped or dropped yield no rows and no exception. */
  lemma {:induction false} SkippedLinesYieldNothing(lines: seq<Line>)
    requires forall j :: 0 <= j < |lines| ==> Outcome(lines[j]) == Ok(None)
    ensures Retained(lines) == [] && FirstFailure(lines).None?
  {
    if |lines| > 0 {
      assert Outcome(lines[0]) == Ok(None);
      assert forall j :: 0 <= j < |lines[1..]| ==> lines[1..][j] == lines[j + 1];
      SkippedLinesYieldNothing(lines[1..]);
    }
  }

  /** The skipped lines before position `i` yield nothing. */
  lemma SkippedPrefixYieldsNothing(lines: seq<Line>, i: nat)
    requires i <= |lines|
    requires forall j :: 0 <= j < i ==> Outcome(lines[j]) == Ok(None)
    ensures Retained(lines[..i]) == [] && FirstFailure(lines[..i]).None?
  {
    var prefix := lines[..i];
    forall j | 0 <= j < |prefix| ensures Outcome(prefix[j]) == Ok(None) {
      assert prefix[j] == lines[j];
    }
    SkippedLinesYieldNothing(prefix);
  }

  /** The skipped lines after position `i` yield nothing. */
  lemma SkippedSuffixYieldsNothing(lines: seq<Line>, i: nat)
    requires i < |lines|
    requires forall j :: i < j < |lines| ==> Outcome(lines[j]) == Ok(None)
    ensures Retained(lines[i + 1..]) == [] && FirstFailure(lines[i + 1..]).None?
  {
    var suffix := lines[i + 1..];
    forall j | 0 <= j < |suffix| ensures Outcome(suffix[j]) == Ok(None) {
      assert suffix[j] == lines[i + 1 + j];
    }
    SkippedLinesYieldNothing(suffix);
  }

  /** Splicing a kept line between two runs that yield nothing gives its row alone. */
  lemma SpliceKept(before: seq<Line>, line: Line, after: seq<Line>)
    requires Retained(before) == [] && FirstFailure(before).None?
    requires Retained(after) == [] && FirstFailure(after).None?
    requires Outcome(line).Ok? && Outcome(line).value.Some?
    ensures Retained(before + [line] + after) == [Outcome(line).value.value]
    ensures FirstFailure(before + [line] + after).None?
  {
    assert before + [line] + after == before + ([line] + after);
    assert ([line] + after)[1..] == after;
    RetainedAppend(before, [line] + after);
    FirstFailureAppend(before, [line] + after);
  }

  /**
   * One kept record among any number of skipped or dropped lines gives
   * exactly one row and no exception.
   */
  lemma OneRecordAmongNoise(lines: seq<Line>, i: nat)
    requires i < |lines|
    requires Outcome(lines[i]).Ok? && Outcome(lines[i]).value.Some?
    requires forall j :: 0 <= j < |lines| && j != i ==> Outcome(lines[j]) == Ok(None)
    ensures FirstFailure(lines).None?
    ensures Retained(lines) == [Outcome(lines[i]).value.value]
  {
    SkippedPrefixYieldsNothing(lines, i);
    SkippedSuffixYieldsNothing(lines, i);
    SpliceKept(lines[..i], lines[i], lines[i + 1..]);
    Pieces(lines, i);
  }

  /**
   * The extraction loop. Parse outcomes arrive one per line, in file order;
   * the result is the task list or the exception that ended the run.
   */
  method ExtractTaskEvents(lines: seq<Line>) returns (result: Result<seq<Row>, Failure>)
    ensures FirstFailure(lines).Some? ==> result == Err(FirstFailure(lines).value)
    ensures FirstFailure(lines).None? ==> result == Ok(Retained(lines))
  {
    var taskData: seq<Row> := [];
    var i := 0;
    while i < |lines|
      invariant 0 <= i <= |lines|
      invariant FirstFailure(lines[..i]).None?
      invariant taskData == Retained(lines[..i])
    {
      assert lines[..i + 1] == lines[..i] + [lines[i]];
      RetainedAppend(lines[..i], [lines[i]]);
      RetainedSingle(lines[i]);
      FirstFailureAppend(lines[..i], [lines[i]]);
      assert [lines[i]][1..] == [];
      assert lines == lines[..i] + lines[i..];
      FirstFailureAppend(lines[..i], lines[i..]);
      match lines[i] {
        case Malformed =>
          // a syntax error: skip the line
        case NonObject =>
          return Err(TypeError);
        case Parsed(event) =>
          match event.event {
            case Missing =>
              return Err(KeyError("Event"));
            case Null =>
            case Present(name) =>
              if name == TaskStart || name == TaskEnd {
                match event.taskInfo {
                  case Missing =>
                    return Err(KeyError("Task Info"));
                  case Null =>
                    return Err(AttributeError);
                  case Present(taskInfo) =>
                    taskData := taskData + [RowOf(name, event.stageId, taskInfo)];
                }
              }
          }
      }
      i := i + 1;
    }
    assert lines[..i] == lines;
    result := Ok(taskData);
  }
}
