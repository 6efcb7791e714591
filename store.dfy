/**
 * What the `TaskManager` operations do, as functions of the manager's state and
 * of the task file. The methods of `Manager.TaskManager` are proved to compute
 * exactly these; the properties of the store are lemmas about them.
 */
module TaskStore {
  import opened Wrappers
  import opened Decimal
  import opened DateTime
  import opened Codec

  /** The task file as the operating system presents it. */
  datatype FileState =
    | Absent                        // os.Open reports that the file does not exist
    | OpenFails                     // os.Open fails for any other reason
    | ReadFails                     // the CSV reader rejects the quoting
    | Records(rows: seq<Record>)    // the rows, header included, before any width check

  /** Errors the manager and the command handlers return. */
  datatype Error =
    | OpenFailed
    | ReadFailed
    | CreateFailed
    | NotFound(id: int64)
    | NoCommand
    | MissingDescription
    | MissingId(command: string)
    | InvalidTaskId
    | UnknownCommand(command: string)

  /** The fields of a `TaskManager` together with the file it is bound to. */
  datatype Snapshot = Snapshot(tasks: seq<Task>, loaded: bool, file: FileState)

  // ----- Identifiers -----

  predicate DistinctIds(ts: seq<Task>)
  {
    forall i, j | 0 <= i < j < |ts| :: ts[i].id != ts[j].id
  }

  /** The accumulator of `getNextID` after the loop: the largest ID, or 0 if none is larger. */
  function MaxIdOrZero(ts: seq<Task>): (m: int)
    ensures 0 <= m <= MaxInt64
    ensures forall i | 0 <= i < |ts| :: ts[i].id as int <= m
    ensures m == 0 || exists i | 0 <= i < |ts| :: ts[i].id as int == m
  {
    if ts == [] then 0
    else
      var m := MaxIdOrZero(ts[..|ts| - 1]);
      var last := ts[|ts| - 1].id as int;
      if last > m then last else m
  }

  /** `getNextID`: the accumulator plus one, in Go's wrapping 64-bit arithmetic. */
  function NextId(ts: seq<Task>): int64
  {
    var m := MaxIdOrZero(ts);
    if m == MaxInt64 then MinInt64 as int64 else (m + 1) as int64
  }

  /** Unless some ID is MaxInt64, the next ID is positive and larger than every ID present. */
  lemma NextIdFresh(ts: seq<Task>)
    requires MaxIdOrZero(ts) < MaxInt64
    ensures NextId(ts) >= 1
    ensures forall i | 0 <= i < |ts| :: ts[i].id < NextId(ts)
  {
  }

  /** An empty list gets ID 1, and so does a list whose IDs are all below 1. */
  lemma NextIdWithoutPositiveIds(ts: seq<Task>)
    requires forall i | 0 <= i < |ts| :: ts[i].id < 1
    ensures NextId(ts) == 1
  {
  }

  /** A stored ID of MaxInt64 makes the next ID wrap around to MinInt64. */
  lemma NextIdWrapsAtMaxInt64(ts: seq<Task>)
    requires exists i | 0 <= i < |ts| :: ts[i].id as int == MaxInt64
    ensures NextId(ts) as int == MinInt64
  {
  }

  /** Appending a task moves the accumulator to that task's ID when it is larger, and leaves it otherwise. */
  lemma {:induction false} NextIdAfterAppend(ts: seq<Task>, t: Task)
    ensures MaxIdOrZero(ts + [t]) == if t.id as int > MaxIdOrZero(ts) then t.id as int else MaxIdOrZero(ts)
  {
    assert (ts + [t])[..|ts|] == ts;
  }

  // ----- Lookup by ID -----

  /** Index of the first task with the given ID, or the length when there is none. */
  function IndexOfId(ts: seq<Task>, id: int64): (k: nat)
    ensures k <= |ts|
    ensures k < |ts| ==> ts[k].id == id
    ensures forall j | 0 <= j < k :: ts[j].id != id
  {
    if ts == [] then 0
    else if ts[0].id == id then 0
    else 1 + IndexOfId(ts[1..], id)
  }

  predicate HasId(ts: seq<Task>, id: int64)
  {
    exists i | 0 <= i < |ts| :: ts[i].id == id
  }

  lemma IndexOfIdFound(ts: seq<Task>, id: int64)
    ensures IndexOfId(ts, id) < |ts| <==> HasId(ts, id)
  {
  }

  /** The list with the flag set on the task at index k. */
  function MarkedAt(ts: seq<Task>, k: nat): seq<Task>
    requires k < |ts|
  {
    ts[k := ts[k].(isComplete := true)]
  }

  /** The list without the task at index k. */
  function RemovedAt(ts: seq<Task>, k: nat): seq<Task>
    requires k < |ts|
  {
    ts[..k] + ts[k + 1..]
  }

  // ----- Filtering -----

  /** The tasks `ListTasks` prints, in stored order. */
  function Visible(ts: seq<Task>, showAll: bool): seq<Task>
  {
    if ts == [] then []
    else
      var last := ts[|ts| - 1];
      Visible(ts[..|ts| - 1], showAll) + (if showAll || !last.isComplete then [last] else [])
  }

  /** `xs` is `ys` with some elements left out and the rest in order. */
  predicate IsSubsequence<T(==)>(xs: seq<T>, ys: seq<T>)
    decreases |ys|
  {
    if xs == [] then true
    else if ys == [] then false
    else ((xs[|xs| - 1] == ys[|ys| - 1] && IsSubsequence(xs[..|xs| - 1], ys[..|ys| - 1]))
          || IsSubsequence(xs, ys[..|ys| - 1]))
  }

  lemma {:induction false} SubsequenceOfSelf<T>(xs: seq<T>)
    ensures IsSubsequence(xs, xs)
    decreases |xs|
  {
    if xs != [] {
      SubsequenceOfSelf(xs[..|xs| - 1]);
    }
  }

  lemma {:induction false} RemovedIsSubsequence<T>(ys: seq<T>, k: nat)
    requires k < |ys|
    ensures IsSubsequence(ys[..k] + ys[k + 1..], ys)
    decreases |ys|
  {
    var xs := ys[..k] + ys[k + 1..];
    if k == |ys| - 1 {
      assert xs == ys[..|ys| - 1];
      SubsequenceOfSelf(xs);
    } else {
      var ys' := ys[..|ys| - 1];
      RemovedIsSubsequence(ys', k);
      assert ys'[..k] + ys'[k + 1..] == xs[..|xs| - 1];
    }
  }

  lemma {:induction false} VisibleAll(ts: seq<Task>)
    ensures Visible(ts, true) == ts
  {
    if ts != [] {
      VisibleAll(ts[..|ts| - 1]);
      assert ts == ts[..|ts| - 1] + [ts[|ts| - 1]];
    }
  }

  /** Without `-all`, a task is printed exactly when it is stored and incomplete. */
  lemma {:induction false} VisibleMembers(ts: seq<Task>)
    ensures forall t :: t in Visible(ts, false) <==> t in ts && !t.isComplete
  {
    if ts != [] {
      var init, last := ts[..|ts| - 1], ts[|ts| - 1];
      VisibleMembers(init);
      assert ts == init + [last];
    }
  }

  /** The printed tasks keep their stored order. */
  lemma {:induction false} VisibleInOrder(ts: seq<Task>, showAll: bool)
    ensures IsSubsequence(Visible(ts, showAll), ts)
  {
    if ts != [] {
      var init, last := ts[..|ts| - 1], ts[|ts| - 1];
      VisibleInOrder(init, showAll);
      var v := Visible(ts, showAll);
      if showAll || !last.isComplete {
        assert v == Visible(init, showAll) + [last];
        assert v[..|v| - 1] == Visible(init, showAll);
      } else {
        assert v == Visible(init, showAll);
      }
    }
  }

  /** Without `-all`, every incomplete task is printed as often as it is stored, and only those. */
  lemma {:induction false} VisibleCounts(ts: seq<Task>)
    ensures multiset(Visible(ts, false)) + CompletedMultiset(ts) == multiset(ts)
  {
    if ts != [] {
      var init, last := ts[..|ts| - 1], ts[|ts| - 1];
      VisibleCounts(init);
      assert ts == init + [last];
    }
  }

  /** The completed tasks, with multiplicity. */
  function CompletedMultiset(ts: seq<Task>): multiset<Task>
  {
    if ts == [] then multiset{}
    else CompletedMultiset(ts[..|ts| - 1]) + (if ts[|ts| - 1].isComplete then multiset{ts[|ts| - 1]} else multiset{})
  }

  // ----- Loading and saving -----

  /** The data rows of the file: every row after the first, which `LoadTasks` takes as the header. */
  function Body(rows: seq<Record>): seq<Record>
  {
    if |rows| > 0 then rows[1..] else []
  }

  /** The tasks decoded from rows, in order, rows that fail to decode skipped. */
  function DecodeRows(rows: seq<Record>): seq<Task>
  {
    if rows == [] then []
    else
      var init := DecodeRows(rows[..|rows| - 1]);
      match ParseTaskFromRecord(rows[|rows| - 1])
      case Ok(t) => init + [t]
      case Err(_) => init
  }

  /** One row per task, in order. */
  function EncodeRows(ts: seq<Task>): (rows: seq<Record>)
    ensures |rows| == |ts|
  {
    if ts == [] then [] else EncodeRows(ts[..|ts| - 1]) + [ToStringSlice(ts[|ts| - 1])]
  }

  /** The rows `SaveTasks` writes: the header, then one row per task in order. */
  function Serialize(ts: seq<Task>): seq<Record>
  {
    [Header] + EncodeRows(ts)
  }

  /** Rows are decoded independently of one another. */
  lemma {:induction false} DecodeRowsAppend(xs: seq<Record>, ys: seq<Record>)
    ensures DecodeRows(xs + ys) == DecodeRows(xs) + DecodeRows(ys)
    decreases |ys|
  {
    if ys == [] {
      assert xs + ys == xs;
    } else {
      var ys' := ys[..|ys| - 1];
      DecodeRowsAppend(xs, ys');
      assert (xs + ys)[..|xs + ys| - 1] == xs + ys';
    }
  }

  /** Decoding never invents tasks: at most one per row, each read from some row. */
  lemma {:induction false} DecodeRowsFromRows(rows: seq<Record>)
    ensures |DecodeRows(rows)| <= |rows|
    ensures forall t | t in DecodeRows(rows) :: exists r | r in rows :: ParseTaskFromRecord(r) == Ok(t)
  {
    if rows != [] {
      var init := rows[..|rows| - 1];
      DecodeRowsFromRows(init);
      assert forall r | r in init :: r in rows;
      assert rows[|rows| - 1] in rows;
    }
  }

  /** A row that decodes, placed last, adds its task last. */
  lemma DecodeRowsSnoc(rows: seq<Record>, r: Record, t: Task)
    requires ParseTaskFromRecord(r) == Ok(t)
    ensures DecodeRows(rows + [r]) == DecodeRows(rows) + [t]
  {
    assert (rows + [r])[..|rows|] == rows;
  }

  /** Decoding the rows written for a task list gives that list back. */
  lemma {:induction false} DecodeEncoded(ts: seq<Task>)
    ensures DecodeRows(EncodeRows(ts)) == ts
  {
    if ts != [] {
      var init, last := ts[..|ts| - 1], ts[|ts| - 1];
      DecodeEncoded(init);
      ParseTaskFromRecordRoundTrip(last);
      assert EncodeRows(ts) == EncodeRows(init) + [ToStringSlice(last)];
      DecodeRowsSnoc(EncodeRows(init), ToStringSlice(last), last);
      assert ts == init + [last];
    }
  }

  lemma DecodeSerialized(ts: seq<Task>)
    ensures DecodeRows(Body(Serialize(ts))) == ts
  {
    assert Body(Serialize(ts)) == EncodeRows(ts);
    DecodeEncoded(ts);
  }

  /** A row that fails to decode is skipped without disturbing the rows around it. */
  lemma DecodeRowsSkipsMalformed(xs: seq<Record>, bad: Record, ys: seq<Record>)
    requires ParseTaskFromRecord(bad).Err?
    ensures DecodeRows(xs + [bad] + ys) == DecodeRows(xs + ys)
  {
    DecodeRowsAppend(xs + [bad], ys);
    DecodeRowsAppend(xs, [bad]);
    DecodeRowsAppend(xs, ys);
    assert [bad][..0] == [];
  }

  /**
   * The check `csv.Reader.ReadAll` makes with `FieldsPerRecord` left at 0: the
   * first row fixes the number of fields, and every later row must have it.
   */
  predicate SameWidth(rows: seq<Record>)
  {
    forall i | 0 <= i < |rows| :: |rows[i]| == |rows[0]|
  }

  /** Every row written for a task list, header included, has four fields. */
  lemma {:induction false} SerializeSameWidth(ts: seq<Task>)
    ensures SameWidth(Serialize(ts))
  {
    var rows := Serialize(ts);
    forall i | 0 <= i < |rows| ensures |rows[i]| == 4 {
      if i > 0 {
        EncodedRowWidth(ts, i - 1);
      }
    }
  }

  lemma {:induction false} EncodedRowWidth(ts: seq<Task>, i: nat)
    requires i < |ts|
    ensures |EncodeRows(ts)[i]| == 4
  {
    var init := ts[..|ts| - 1];
    if i < |ts| - 1 {
      EncodedRowWidth(init, i);
      assert EncodeRows(ts)[i] == EncodeRows(init)[i];
    }
  }

  /** A row that decodes contributes its task, in place, whatever spelling its fields use. */
  lemma DecodeRowsKeepsParsed(xs: seq<Record>, r: Record, ys: seq<Record>)
    requires ParseTaskFromRecord(r).Ok?
    ensures DecodeRows(xs + [r] + ys) == DecodeRows(xs) + [ParseTaskFromRecord(r).value] + DecodeRows(ys)
  {
    DecodeRowsAppend(xs + [r], ys);
    DecodeRowsAppend(xs, [r]);
    assert [r][..0] == [];
  }

  /** `LoadTasks`: a no-op once loaded; otherwise appends the decodable data rows. */
  function LoadStep(s: Snapshot): (Snapshot, Outcome<Error>)
  {
    if s.loaded then (s, Pass)
    else match s.file
      case Absent => (s.(loaded := true), Pass)
      case OpenFails => (s, Fail(OpenFailed))
      case ReadFails => (s, Fail(ReadFailed))
      case Records(rows) =>
        if !SameWidth(rows) then (s, Fail(ReadFailed))
        else (s.(tasks := s.tasks + DecodeRows(Body(rows)), loaded := true), Pass)
  }

  /** `SaveTasks`: replaces the file by the serialized list, unless it cannot be created. */
  function SaveStep(s: Snapshot, writable: bool): (Snapshot, Outcome<Error>)
  {
    if writable then (s.(file := Records(Serialize(s.tasks))), Pass) else (s, Fail(CreateFailed))
  }

  /** Saving, then loading into a fresh manager, restores the task list. */
  lemma SaveThenLoad(s: Snapshot)
    ensures var saved := SaveStep(s, true).0;
      LoadStep(Snapshot([], false, saved.file)) == (Snapshot(s.tasks, true, saved.file), Pass)
  {
    var rows := Serialize(s.tasks);
    SerializeSameWidth(s.tasks);
    DecodeSerialized(s.tasks);
    assert [] + DecodeRows(Body(rows)) == s.tasks;
  }

  /**
   * Loading from an existing file drops its first row whatever it holds (even
   * a valid task) and appends the decodable rows after it, in order, provided
   * every row has as many fields as the first; otherwise the read fails.
   */
  lemma LoadDropsFirstRow(ts: seq<Task>, first: Record, rows: seq<Record>)
    ensures var load := LoadStep(Snapshot(ts, false, Records([first] + rows)));
      && ((forall r | r in rows :: |r| == |first|) ==> load == (Snapshot(ts + DecodeRows(rows), true, Records([first] + rows)), Pass))
      && ((exists r | r in rows :: |r| != |first|) ==> load == (Snapshot(ts, false, Records([first] + rows)), Fail(ReadFailed)))
    ensures LoadStep(Snapshot(ts, false, Records([]))) == (Snapshot(ts, true, Records([])), Pass)
  {
    var all := [first] + rows;
    assert all[1..] == rows;
    assert ts + [] == ts;
    if forall r | r in rows :: |r| == |first| {
      forall i | 0 <= i < |all| ensures |all[i]| == |all[0]| {
        if i > 0 { assert all[i] in rows; }
      }
    } else {
      var r :| r in rows && |r| != |first|;
      var i :| 0 <= i < |rows| && rows[i] == r;
      assert all[i + 1] == r;
    }
  }

  /**
   * A missing file loads as no tasks; other open and read errors, including a
   * row whose width differs from the first row's, abort and leave the manager
   * unloaded.
   */
  lemma LoadOutcomes(s: Snapshot)
    requires !s.loaded
    ensures s.file == Absent ==> LoadStep(s) == (s.(loaded := true), Pass)
    ensures s.file == OpenFails || s.file == ReadFails ==> LoadStep(s).1.Fail? && !LoadStep(s).0.loaded
    ensures s.file.Records? && !SameWidth(s.file.rows) ==> LoadStep(s) == (s, Fail(ReadFailed))
    ensures LoadStep(s).1.Pass? ==> LoadStep(s).0.loaded && LoadStep(s).0.tasks[..|s.tasks|] == s.tasks
  {
  }

  /**
   * Under a header of four fields, a loaded file has no row skipped for its
   * length: every data row that fails to decode fails on its ID, date or flag.
   */
  lemma LoadedRowsHaveFourFields(s: Snapshot)
    requires !s.loaded && s.file.Records? && |s.file.rows| > 0 && |s.file.rows[0]| == 4
    requires LoadStep(s).1.Pass?
    ensures forall r | r in Body(s.file.rows) :: ParseTaskFromRecord(r) != Err(InvalidLength)
  {
    var rows := s.file.rows;
    forall r | r in Body(rows) ensures |r| == 4 {
      var i :| 0 <= i < |Body(rows)| && Body(rows)[i] == r;
      assert rows[i + 1] == r;
    }
  }

  /** A second load changes nothing. */
  lemma LoadIdempotent(s: Snapshot)
    requires LoadStep(s).1.Pass?
    ensures LoadStep(LoadStep(s).0) == LoadStep(s)
  {
  }

  // ----- Mutations -----

  /** `AddTask`: load, append a new incomplete task with the next ID, save. */
  function AddStep(s: Snapshot, description: string, now: DateTime, writable: bool): (Snapshot, Outcome<Error>)
  {
    var load := LoadStep(s);
    if load.1.Fail? then load
    else
      var ts := load.0.tasks;
      SaveStep(load.0.(tasks := ts + [Task(NextId(ts), description, now, false)]), writable)
  }

  /** `MarkComplete`: load, set the flag on the first task with the ID, save; or report it missing. */
  function CompleteStep(s: Snapshot, id: int64, writable: bool): (Snapshot, Outcome<Error>)
  {
    var load := LoadStep(s);
    if load.1.Fail? then load
    else
      var ts := load.0.tasks;
      var k := IndexOfId(ts, id);
      if k == |ts| then (load.0, Fail(NotFound(id)))
      else SaveStep(load.0.(tasks := MarkedAt(ts, k)), writable)
  }

  /** `DeleteTask`: load, remove the first task with the ID, save; or report it missing. */
  function DeleteStep(s: Snapshot, id: int64, writable: bool): (Snapshot, Outcome<Error>)
  {
    var load := LoadStep(s);
    if load.1.Fail? then load
    else
      var ts := load.0.tasks;
      var k := IndexOfId(ts, id);
      if k == |ts| then (load.0, Fail(NotFound(id)))
      else SaveStep(load.0.(tasks := RemovedAt(ts, k)), writable)
  }

  /** `ListTasks`: load, then the tasks it prints. */
  function ListStep(s: Snapshot, showAll: bool): (Snapshot, Result<seq<Task>, Error>)
  {
    var load := LoadStep(s);
    if load.1.Fail? then (load.0, Err(load.1.error)) else (load.0, Ok(Visible(load.0.tasks, showAll)))
  }

  /** A failed load aborts every operation before anything else happens. */
  lemma LoadFailureAborts(s: Snapshot, description: string, now: DateTime, id: int64, showAll: bool, writable: bool)
    requires LoadStep(s).1.Fail?
    ensures AddStep(s, description, now, writable) == (s, LoadStep(s).1)
    ensures CompleteStep(s, id, writable) == (s, LoadStep(s).1)
    ensures DeleteStep(s, id, writable) == (s, LoadStep(s).1)
    ensures ListStep(s, showAll) == (s, Err(LoadStep(s).1.error))
  {
  }

  /**
   * After a successful load, `AddTask` appends exactly one task at the end,
   * incomplete, with the next ID; when no ID is MaxInt64 that ID is positive
   * and exceeds every earlier ID, so distinct IDs stay distinct. The task
   * stays in memory even when saving fails.
   */
  lemma AddAppends(s: Snapshot, description: string, now: DateTime, writable: bool)
    requires LoadStep(s).1.Pass?
    ensures var before := LoadStep(s).0.tasks;
      var add := AddStep(s, description, now, writable);
      && add.0.tasks == before + [Task(NextId(before), description, now, false)]
      && add.0.loaded
      && (add.1.Pass? <==> writable)
      && (writable ==> add.0.file == Records(Serialize(add.0.tasks)))
      && (!writable ==> add.0.file == s.file)
  {
  }

  /** Appending a task with the next ID keeps IDs distinct, unless the ID wrapped around. */
  lemma {:induction false} AppendNextIdDistinct(ts: seq<Task>, t: Task)
    requires MaxIdOrZero(ts) < MaxInt64 && t.id == NextId(ts)
    requires DistinctIds(ts)
    ensures t.id >= 1 && !HasId(ts, t.id)
    ensures DistinctIds(ts + [t])
  {
    NextIdFresh(ts);
    var ts' := ts + [t];
    forall i, j | 0 <= i < j < |ts'| ensures ts'[i].id != ts'[j].id {
      if j < |ts| {
        assert ts'[i] == ts[i] && ts'[j] == ts[j];
      } else {
        assert ts'[i] == ts[i];
      }
    }
  }

  /** Two adds in a row give consecutive IDs (below the wrap-around). */
  lemma {:induction false} AddTwiceConsecutive(ts: seq<Task>, t1: Task, t2: Task)
    requires MaxIdOrZero(ts) + 1 < MaxInt64
    requires t1.id == NextId(ts) && t2.id == NextId(ts + [t1])
    ensures t2.id as int == t1.id as int + 1
  {
    NextIdAfterAppend(ts, t1);
  }

  /**
   * Because the next ID is the maximum plus one, deleting the task that was
   * added last and adding again hands out the same ID a second time.
   */
  lemma {:induction false} DeleteNewestReusesId(ts: seq<Task>, t: Task)
    requires MaxIdOrZero(ts) < MaxInt64 && t.id == NextId(ts)
    ensures IndexOfId(ts + [t], t.id) == |ts|
    ensures RemovedAt(ts + [t], |ts|) == ts
    ensures NextId(RemovedAt(ts + [t], |ts|)) == t.id
  {
    NextIdFresh(ts);
    var ts' := ts + [t];
    var k := IndexOfId(ts', t.id);
    assert ts'[|ts|].id == t.id;
    assert ts'[..|ts|] == ts;
  }

  /** Setting the flag at k changes that task's flag and nothing else. */
  lemma MarkedAtShape(ts: seq<Task>, k: nat)
    requires k < |ts|
    ensures var r := MarkedAt(ts, k);
      && |r| == |ts|
      && r[k].isComplete
      && r[k] == ts[k].(isComplete := true)
      && (forall j | 0 <= j < |ts| && j != k :: r[j] == ts[j])
      && MarkedAt(r, k) == r
  {
  }

  /**
   * `MarkComplete` on a present ID flags the first task with that ID; on an
   * absent ID it reports it and changes no task.
   */
  lemma CompleteFlagsFirst(s: Snapshot, id: int64, writable: bool)
    requires LoadStep(s).1.Pass?
    ensures var before := LoadStep(s).0.tasks;
      var done := CompleteStep(s, id, writable);
      var k := IndexOfId(before, id);
      && (HasId(before, id) ==>
            && k < |before| && before[k].id == id
            && (forall j | 0 <= j < k :: before[j].id != id)
            && done.0.tasks == MarkedAt(before, k)
            && done.0.loaded
            && (done.1.Pass? <==> writable)
            && (writable ==> done.0.file == Records(Serialize(done.0.tasks)))
            && (!writable ==> done.0.file == s.file))
      && (!HasId(before, id) ==> done == (LoadStep(s).0, Fail(NotFound(id))))
  {
    IndexOfIdFound(LoadStep(s).0.tasks, id);
  }

  /** Completing the same ID twice leaves the list as completing it once, and succeeds again. */
  lemma CompleteIdempotent(s: Snapshot, id: int64)
    requires CompleteStep(s, id, true).1.Pass?
    ensures var s1 := CompleteStep(s, id, true).0;
      var s2 := CompleteStep(s1, id, true);
      s2.1.Pass? && s2.0.tasks == s1.tasks
  {
    var l := LoadStep(s).0;
    var k := IndexOfId(l.tasks, id);
    var ts := MarkedAt(l.tasks, k);
    var s1 := CompleteStep(s, id, true).0;
    assert s1.tasks == ts && s1.loaded;
    assert LoadStep(s1) == (s1, Pass);
    assert IndexOfId(ts, id) == k by {
      assert ts[k].id == id;
    }
    assert MarkedAt(ts, k) == ts;
  }

  /** Removing index k drops one task and keeps the rest in their order. */
  lemma RemovedAtShape(ts: seq<Task>, k: nat)
    requires k < |ts|
    ensures var r := RemovedAt(ts, k);
      && |r| == |ts| - 1
      && (forall i | 0 <= i < |r| :: r[i] == if i < k then ts[i] else ts[i + 1])
      && multiset(r) + multiset{ts[k]} == multiset(ts)
      && IsSubsequence(r, ts)
  {
    var r := RemovedAt(ts, k);
    assert ts == ts[..k] + [ts[k]] + ts[k + 1..];
    assert multiset(ts) == multiset(ts[..k]) + multiset{ts[k]} + multiset(ts[k + 1..]);
    assert multiset(r) == multiset(ts[..k]) + multiset(ts[k + 1..]);
    RemovedIsSubsequence(ts, k);
  }

  /** With distinct IDs, removing a task removes its ID from the list, and IDs stay distinct. */
  lemma RemovedAtDistinct(ts: seq<Task>, k: nat)
    requires k < |ts| && DistinctIds(ts)
    ensures !HasId(RemovedAt(ts, k), ts[k].id)
    ensures DistinctIds(RemovedAt(ts, k))
  {
    var r := RemovedAt(ts, k);
    forall i | 0 <= i < |r| ensures r[i].id != ts[k].id {
      if i < k { assert r[i] == ts[i]; } else { assert r[i] == ts[i + 1]; }
    }
    forall i, j | 0 <= i < j < |r| ensures r[i].id != r[j].id {
      var i' := if i < k then i else i + 1;
      var j' := if j < k then j else j + 1;
      assert r[i] == ts[i'] && r[j] == ts[j'];
    }
  }

  /**
   * `DeleteTask` on a present ID removes the first task with that ID; on an
   * absent ID it reports it and changes no task.
   */
  lemma DeleteRemovesFirst(s: Snapshot, id: int64, writable: bool)
    requires LoadStep(s).1.Pass?
    ensures var before := LoadStep(s).0.tasks;
      var done := DeleteStep(s, id, writable);
      var k := IndexOfId(before, id);
      && (HasId(before, id) ==>
            && k < |before| && before[k].id == id
            && (forall j | 0 <= j < k :: before[j].id != id)
            && done.0.tasks == RemovedAt(before, k)
            && done.0.loaded
            && (done.1.Pass? <==> writable)
            && (writable ==> done.0.file == Records(Serialize(done.0.tasks)))
            && (!writable ==> done.0.file == s.file))
      && (!HasId(before, id) ==> done == (LoadStep(s).0, Fail(NotFound(id))))
  {
    IndexOfIdFound(LoadStep(s).0.tasks, id);
  }

  /** `ListTasks` on a loaded manager changes nothing. */
  lemma ListChangesNothing(s: Snapshot, showAll: bool)
    requires s.loaded
    ensures ListStep(s, showAll) == (s, Ok(Visible(s.tasks, showAll)))
  {
  }
}
