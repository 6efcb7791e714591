/**
 * The task record and its four-field row in the task file: `Task.ToStringSlice`
 * writes a row, `parseTaskFromRecord` reads one back.
 */
module Codec {
  import opened Wrappers
  import opened Decimal
  import opened DateTime

  datatype Task = Task(id: int64, description: string, createdAt: DateTime, isComplete: bool)

  /** One row of the task file, already split into fields by the CSV reader. */
  type Record = seq<string>

  /** Why `parseTaskFromRecord` refused a row, in the order it checks. */
  datatype DecodeError = InvalidLength | InvalidId | InvalidDate | InvalidCompletion

  /** The header row `SaveTasks` writes before the tasks. */
  const Header: Record := ["ID", "Description", "CreatedAt", "IsComplete"]

  /** `strconv.FormatBool`. */
  function FormatBool(b: bool): (s: string)
    ensures ParseBool(s) == Some(b)
  {
    if b then "true" else "false"
  }

  /** `strconv.ParseBool`: the six spellings of each truth value Go accepts. */
  function ParseBool(s: string): Option<bool>
  {
    if s == "1" || s == "t" || s == "T" || s == "TRUE" || s == "true" || s == "True" then Some(true)
    else if s == "0" || s == "f" || s == "F" || s == "FALSE" || s == "false" || s == "False" then Some(false)
    else None
  }

  /** `Task.ToStringSlice`: ID, description, timestamp, completion flag. */
  function ToStringSlice(t: Task): (r: Record)
    ensures |r| == 4
  {
    [Itoa(t.id), t.description, Format(t.createdAt), FormatBool(t.isComplete)]
  }

  /** `parseTaskFromRecord`: the length, then the ID, the date and the flag, in that order. */
  function ParseTaskFromRecord(r: Record): (res: Result<Task, DecodeError>)
    ensures |r| != 4 ==> res == Err(InvalidLength)
    ensures res.Ok? ==> |r| == 4 && res.value.description == r[1]
  {
    if |r| != 4 then Err(InvalidLength)
    else match Atoi(r[0])
      case None => Err(InvalidId)
      case Some(id) =>
        match Parse(r[2])
        case None => Err(InvalidDate)
        case Some(createdAt) =>
          match ParseBool(r[3])
          case None => Err(InvalidCompletion)
          case Some(isComplete) => Ok(Task(id, r[1], createdAt, isComplete))
  }

  /** Every task survives being written as a row and read back, field for field. */
  lemma ParseTaskFromRecordRoundTrip(t: Task)
    ensures ParseTaskFromRecord(ToStringSlice(t)) == Ok(t)
  {
    AtoiItoa(t.id);
    ParseFormat(t.createdAt);
  }

  /** A row of four fields is accepted exactly when each of its three typed fields parses. */
  lemma ParseTaskFromRecordAccepts(r: Record)
    requires |r| == 4
    ensures ParseTaskFromRecord(r).Ok? <==> Atoi(r[0]).Some? && Parse(r[2]).Some? && ParseBool(r[3]).Some?
    ensures ParseTaskFromRecord(r).Ok? ==>
      var t := ParseTaskFromRecord(r).value;
      Some(t.id) == Atoi(r[0]) && Some(t.createdAt) == Parse(r[2]) && Some(t.isComplete) == ParseBool(r[3])
  {
  }

  /** The header row is never read as a task: "ID" is not a number. */
  lemma HeaderIsNotATask()
    ensures ParseTaskFromRecord(Header) == Err(InvalidId)
  {
    assert Header[0] == "ID";
    assert Header[0][0] == 'I';
  }
}
