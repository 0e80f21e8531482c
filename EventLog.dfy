/**
 * The data the event-log script handles: one parsed log line, the flat task
 * row it appends to its task list, and the exceptions that end a run.
 */
module EventLog {
  import opened Wrappers

  /**
   * How a key looks up in a parsed JSON object: absent, present with the
   * value null, or present with a value.
   */
  datatype Field<+T> = Missing | Null | Present(value: T)

  /** The nested "Task Info" object of a task record. */
  datatype TaskInfo = TaskInfo(
    taskId: Field<int>,       // "Task ID"
    launchTime: Field<int>,   // "Launch Time", milliseconds since the epoch
    finishTime: Field<int>)   // "Finish Time", milliseconds since the epoch

  /**
   * A log line that parsed as a JSON object. `event` is the "Event"
   * discriminator; a non-string value compares unequal to every event name,
   * exactly as Null does. `taskInfo` is Null for a null or any other
   * non-object value, since both lack a `get` method.
   */
  datatype Record = Record(
    event: Field<string>,     // "Event"
    stageId: Field<int>,      // top-level "Stage ID"
    taskInfo: Field<TaskInfo>) // "Task Info"

  /**
   * What parsing one line of text yields: a syntax error (the line is
   * skipped), a JSON value that is not an object (a list, string, number,
   * boolean or null), or an object.
   */
  datatype Line = Malformed | NonObject | Parsed(record: Record)

  /**
   * One row of the task list: the dictionary appended for a task start or
   * task end record. A None id stands for an explicit JSON null; an absent
   * key gives the sentinel -1 instead.
   */
  datatype Row = Row(
    taskId: Option<int>,
    stageId: Option<int>,
    event: string,
    launchTime: Option<int>,
    finishTime: Option<int>)

  /** The uncaught exceptions that abort the script before any metric exists. */
  datatype Failure =
    | KeyError(key: string)  // a subscript on a missing key or column
    | TypeError              // subscripting a parsed value that is not an object
    | AttributeError         // calling `get` on a "Task Info" that is not an object
}
