/**
 * The `TaskManager` object: the in-memory task slice and the `loaded` flag,
 * updated step by step by its methods, each proved to do exactly what the
 * matching function of `TaskStore` describes.
 */
module Manager {
  import opened Wrappers
  import opened Decimal
  import opened DateTime
  import opened Codec
  import opened TaskStore

  /**
   * The file the manager is bound to (`tm.filename`). `writable` says whether
   * `os.Create` succeeds on it.
   */
  class TaskFile {
    var state: FileState
    const writable: bool

    constructor (state: FileState, writable: bool)
      ensures this.state == state && this.writable == writable
    {
      this.state := state;
      this.writable := writable;
    }
  }

  class TaskManager {
    var tasks: seq<Task>
    var loaded: bool
    const file: TaskFile

    /** The manager's fields and the file's content, as one value. */
    function Snap(): Snapshot
      reads this, file
    {
      Snapshot(tasks, loaded, file.state)
    }

    /** `NewTaskManager`: no tasks, not yet loaded. */
    constructor (file: TaskFile)
      ensures this.file == file
      ensures tasks == [] && !loaded
    {
      this.file := file;
      tasks := [];
      loaded := false;
    }

    /** `LoadTasks`: skips the header row and every row that does not decode. */
    method LoadTasks() returns (out: Outcome<Error>)
      modifies this
      ensures (Snap(), out) == LoadStep(old(Snap()))
    {
      if loaded {
        return Pass;
      }
      match file.state
      case Absent =>
        loaded := true;
        return Pass;
      case OpenFails =>
        return Fail(OpenFailed);
      case ReadFails =>
        return Fail(ReadFailed);
      case Records(records) =>
        if !SameWidth(records) {
          return Fail(ReadFailed);
        }
        if |records| > 0 {
          var i := 1;
          while i < |records|
            invariant 1 <= i <= |records|
            invariant tasks == old(tasks) + DecodeRows(records[1..i])
          {
            assert records[1..i + 1][..i - 1] == records[1..i];
            match ParseTaskFromRecord(records[i]) {
              case Ok(task) =>
                tasks := tasks + [task];
              case Err(_) =>
            }
            i := i + 1;
          }
          assert records[1..i] == Body(records);
        } else {
          assert old(tasks) + DecodeRows(Body(records)) == tasks;
        }
        loaded := true;
        return Pass;
    }

    /** `SaveTasks`: the header, then one row per task, replacing the file. */
    method SaveTasks() returns (out: Outcome<Error>)
      modifies file
      ensures (Snap(), out) == SaveStep(old(Snap()), file.writable)
    {
      if !file.writable {
        return Fail(CreateFailed);
      }
      var written := [Header];
      for i := 0 to |tasks|
        invariant written == [Header] + EncodeRows(tasks[..i])
      {
        assert tasks[..i + 1][..i] == tasks[..i];
        assert EncodeRows(tasks[..i + 1]) == EncodeRows(tasks[..i]) + [ToStringSlice(tasks[i])];
        written := written + [ToStringSlice(tasks[i])];
      }
      assert tasks[..|tasks|] == tasks;
      file.state := Records(written);
      return Pass;
    }

    /** `getNextID`: one more than the largest ID, or 1 when no ID is positive. */
    method GetNextId() returns (id: int64)
      ensures id == NextId(tasks)
    {
      if |tasks| == 0 {
        return 1;
      }
      var maxId := 0;
      for i := 0 to |tasks|
        invariant maxId == MaxIdOrZero(tasks[..i])
      {
        assert tasks[..i + 1][..i] == tasks[..i];
        if tasks[i].id as int > maxId {
          maxId := tasks[i].id as int;
        }
      }
      assert tasks[..|tasks|] == tasks;
      // Go's int addition wraps around at 2^63.
      id := if maxId == MaxInt64 then MinInt64 as int64 else (maxId + 1) as int64;
    }

    /** `AddTask`: the new task stays in memory even if saving fails. */
    method AddTask(description: string, now: DateTime) returns (out: Outcome<Error>)
      modifies this, file
      ensures (Snap(), out) == AddStep(old(Snap()), description, now, file.writable)
    {
      out := LoadTasks();
      if out.Fail? {
        return;
      }
      var id := GetNextId();
      tasks := tasks + [Task(id, description, now, false)];
      out := SaveTasks();
    }

    /** `ListTasks`: the tasks it prints, in stored order. */
    method ListTasks(showAll: bool) returns (out: Result<seq<Task>, Error>)
      modifies this
      ensures (Snap(), out) == ListStep(old(Snap()), showAll)
    {
      var load := LoadTasks();
      if load.Fail? {
        return Err(load.error);
      }
      var shown := [];
      for i := 0 to |tasks|
        invariant shown == Visible(tasks[..i], showAll)
      {
        assert tasks[..i + 1][..i] == tasks[..i];
        if showAll || !tasks[i].isComplete {
          shown := shown + [tasks[i]];
        }
      }
      assert tasks[..|tasks|] == tasks;
      return Ok(shown);
    }

    /** `MarkComplete`: flags the first task with the ID in place, then saves. */
    method MarkComplete(taskId: int64) returns (out: Outcome<Error>)
      modifies this, file
      ensures (Snap(), out) == CompleteStep(old(Snap()), taskId, file.writable)
    {
      out := LoadTasks();
      if out.Fail? {
        return;
      }
      var i := 0;
      while i < |tasks|
        invariant 0 <= i <= |tasks|
        invariant forall j | 0 <= j < i :: tasks[j].id != taskId
      {
        if tasks[i].id == taskId {
          tasks := tasks[i := tasks[i].(isComplete := true)];
          out := SaveTasks();
          return;
        }
        i := i + 1;
      }
      return Fail(NotFound(taskId));
    }

    /** `DeleteTask`: splices out the first task with the ID, then saves. */
    method DeleteTask(taskId: int64) returns (out: Outcome<Error>)
      modifies this, file
      ensures (Snap(), out) == DeleteStep(old(Snap()), taskId, file.writable)
    {
      out := LoadTasks();
      if out.Fail? {
        return;
      }
      var i := 0;
      while i < |tasks|
        invariant 0 <= i <= |tasks|
        invariant forall j | 0 <= j < i :: tasks[j].id != taskId
      {
        if tasks[i].id == taskId {
          tasks := tasks[..i] + tasks[i + 1..];
          out := SaveTasks();
          return;
        }
        i := i + 1;
      }
      return Fail(NotFound(taskId));
    }
  }
}
