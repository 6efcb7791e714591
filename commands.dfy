/**
 * The command line: `parseCommand` splits the argument vector, the
 * `handle*Command` functions check each command's arguments, and
 * `executeCommand` runs the chosen operation on a `TaskManager`.
 */
module Commands {
  import opened Wrappers
  import opened Decimal
  import opened DateTime
  import opened Codec
  import opened TaskStore
  import opened Manager

  /** An operation whose arguments have been checked. */
  datatype Command =
    | Add(description: string)
    | List(showAll: bool)
    | Complete(id: int64)
    | Delete(id: int64)

  /** `strings.Join`. */
  function Join(parts: seq<string>, sep: string): string
  {
    if parts == [] then ""
    else if |parts| == 1 then parts[0]
    else parts[0] + sep + Join(parts[1..], sep)
  }

  /** `strings.Split` with a one-character separator: the pieces between separators. */
  function Split(s: string, sep: char): (parts: seq<string>)
    ensures |parts| > 0
  {
    if s == [] then [""]
    else
      var rest := Split(s[1..], sep);
      if s[0] == sep then [""] + rest else [[s[0]] + rest[0]] + rest[1..]
  }

  lemma {:induction false} SplitPrefix(a: string, t: string, sep: char)
    requires sep !in a
    ensures Split(a + t, sep) == [a + Split(t, sep)[0]] + Split(t, sep)[1..]
  {
    if a != [] {
      SplitPrefix(a[1..], t, sep);
      assert (a + t)[1..] == a[1..] + t;
      assert [a[0]] + (a[1..] + Split(t, sep)[0]) == a + Split(t, sep)[0];
    } else {
      var p := Split(t, sep);
      assert a + t == t;
      assert a + p[0] == p[0];
      assert p == [p[0]] + p[1..];
    }
  }

  /**
   * The description `add` builds joins its words with single spaces; words
   * without spaces can be recovered from it exactly.
   */
  lemma {:induction false} SplitJoin(parts: seq<string>)
    requires parts != []
    requires forall i | 0 <= i < |parts| :: ' ' !in parts[i]
    ensures Split(Join(parts, " "), ' ') == parts
  {
    if |parts| == 1 {
      SplitPrefix(parts[0], "", ' ');
      assert parts[0] + "" == parts[0];
    } else {
      var rest := Join(parts[1..], " ");
      SplitJoin(parts[1..]);
      SplitPrefix(parts[0], " " + rest, ' ');
      assert (" " + rest)[1..] == rest;
      var q := Split(" " + rest, ' ');
      assert q == [""] + Split(rest, ' ');
      assert q[0] == "" && q[1..] == parts[1..];
      assert parts[0] + q[0] == parts[0];
      assert parts[0] + " " + rest == parts[0] + (" " + rest);
      assert parts == [parts[0]] + parts[1..];
    }
  }

  /** `parseCommand`: the program name, then the command, then its arguments. */
  function ParseCommand(args: seq<string>): (r: Result<(string, seq<string>), Error>)
    ensures r.Err? <==> |args| < 2
    ensures r.Err? ==> r.error == NoCommand
    ensures r.Ok? ==> [args[0], r.value.0] + r.value.1 == args
  {
    if |args| < 2 then Err(NoCommand) else Ok((args[1], args[2..]))
  }

  /** `handleAddCommand`: the words of the description, joined by single spaces. */
  function HandleAddCommand(args: seq<string>): Result<Command, Error>
  {
    if |args| == 0 then Err(MissingDescription) else Ok(Add(Join(args, " ")))
  }

  /** `handleListCommand`: completed tasks are shown only when the first argument is "-all". */
  function HandleListCommand(args: seq<string>): Command
  {
    List(|args| > 0 && args[0] == "-all")
  }

  /** The ID argument of `complete` and `delete`, read with `strconv.Atoi`. */
  function ParseTaskId(command: string, args: seq<string>): Result<int64, Error>
  {
    if |args| == 0 then Err(MissingId(command))
    else match Atoi(args[0])
      case None => Err(InvalidTaskId)
      case Some(id) => Ok(id)
  }

  /** `handleCompleteCommand`. */
  function HandleCompleteCommand(args: seq<string>): Result<Command, Error>
  {
    match ParseTaskId("Complete", args)
    case Err(e) => Err(e)
    case Ok(id) => Ok(Complete(id))
  }

  /** `handleDeleteCommand`. */
  function HandleDeleteCommand(args: seq<string>): Result<Command, Error>
  {
    match ParseTaskId("Delete", args)
    case Err(e) => Err(e)
    case Ok(id) => Ok(Delete(id))
  }

  /** The `switch` of `executeCommand`, with each handler's argument checks. */
  function Dispatch(cmd: string, args: seq<string>): Result<Command, Error>
  {
    if cmd == "add" then HandleAddCommand(args)
    else if cmd == "list" then Ok(HandleListCommand(args))
    else if cmd == "complete" then HandleCompleteCommand(args)
    else if cmd == "delete" then HandleDeleteCommand(args)
    else Err(UnknownCommand(cmd))
  }

  /** Runs a checked command: the new state, the error, and the tasks `list` printed. */
  function Run(s: Snapshot, c: Command, now: DateTime, writable: bool): (Snapshot, Outcome<Error>, seq<Task>)
  {
    match c
    case Add(description) =>
      var r := AddStep(s, description, now, writable);
      (r.0, r.1, [])
    case List(showAll) =>
      var r := ListStep(s, showAll);
      if r.1.Ok? then (r.0, Pass, r.1.value) else (r.0, Fail(r.1.error), [])
    case Complete(id) =>
      var r := CompleteStep(s, id, writable);
      (r.0, r.1, [])
    case Delete(id) =>
      var r := DeleteStep(s, id, writable);
      (r.0, r.1, [])
  }

  /** `executeCommand`: argument errors are reported before the manager is touched. */
  function ExecuteStep(s: Snapshot, cmd: string, args: seq<string>, now: DateTime, writable: bool)
    : (Snapshot, Outcome<Error>, seq<Task>)
  {
    match Dispatch(cmd, args)
    case Err(e) => (s, Fail(e), [])
    case Ok(c) => Run(s, c, now, writable)
  }

  /** `executeCommand` on a manager; `now` stands for `time.Now()` in `AddTask`. */
  method ExecuteCommand(cmd: string, tm: TaskManager, args: seq<string>, now: DateTime)
    returns (out: Outcome<Error>, shown: seq<Task>)
    modifies tm, tm.file
    ensures (tm.Snap(), out, shown) == ExecuteStep(old(tm.Snap()), cmd, args, now, tm.file.writable)
  {
    shown := [];
    var dispatched := Dispatch(cmd, args);
    match dispatched {
      case Err(e) =>
        out := Fail(e);
      case Ok(Add(description)) =>
        out := tm.AddTask(description, now);
      case Ok(List(showAll)) =>
        var listed := tm.ListTasks(showAll);
        match listed {
          case Ok(rows) =>
            out, shown := Pass, rows;
          case Err(e) =>
            out := Fail(e);
        }
      case Ok(Complete(id)) =>
        out := tm.MarkComplete(id);
      case Ok(Delete(id)) =>
        out := tm.DeleteTask(id);
    }
  }

  /** `add` needs at least one word, and its description is the words joined by spaces. */
  lemma DispatchAdd(args: seq<string>)
    ensures Dispatch("add", args).Ok? <==> |args| > 0
    ensures |args| > 0 ==> Dispatch("add", args) == Ok(Add(Join(args, " ")))
    ensures |args| == 1 ==> Dispatch("add", args) == Ok(Add(args[0]))
  {
  }

  /** `list` shows completed tasks exactly when its first argument is "-all". */
  lemma DispatchList(args: seq<string>)
    ensures Dispatch("list", args).Ok?
    ensures Dispatch("list", args).value.showAll <==> |args| > 0 && args[0] == "-all"
  {
  }

  /**
   * `complete` and `delete` fail without an argument or with a non-numeric one,
   * and accept exactly the IDs `Atoi` reads.
   */
  lemma DispatchId(cmd: string, args: seq<string>)
    requires cmd == "complete" || cmd == "delete"
    ensures |args| == 0 ==> Dispatch(cmd, args).Err? && Dispatch(cmd, args).error.MissingId?
    ensures |args| > 0 && Atoi(args[0]).None? ==> Dispatch(cmd, args) == Err(InvalidTaskId)
    ensures |args| > 0 && Atoi(args[0]).Some? ==>
      Dispatch(cmd, args) == Ok(if cmd == "complete" then Complete(Atoi(args[0]).value) else Delete(Atoi(args[0]).value))
  {
  }

  /** The decimal form of any ID names that ID on the command line. */
  lemma DispatchIdRoundTrip(id: int64, rest: seq<string>)
    ensures Dispatch("complete", [Itoa(id)] + rest) == Ok(Complete(id))
    ensures Dispatch("delete", [Itoa(id)] + rest) == Ok(Delete(id))
  {
    AtoiItoa(id);
  }

  /** Every other command is refused, and a refused command leaves the manager as it was. */
  lemma DispatchUnknown(s: Snapshot, cmd: string, args: seq<string>, now: DateTime, writable: bool)
    requires cmd != "add" && cmd != "list" && cmd != "complete" && cmd != "delete"
    ensures Dispatch(cmd, args) == Err(UnknownCommand(cmd))
    ensures ExecuteStep(s, cmd, args, now, writable) == (s, Fail(UnknownCommand(cmd)), [])
  {
  }

  /** A usage error never loads, changes or saves anything. */
  lemma UsageErrorChangesNothing(s: Snapshot, cmd: string, args: seq<string>, now: DateTime, writable: bool)
    requires Dispatch(cmd, args).Err?
    ensures ExecuteStep(s, cmd, args, now, writable).0 == s
  {
  }

  // ----- A session, one command at a time -----

  function Buy(now: DateTime): Task { Task(1, "buy milk", now, false) }
  function Walk(now: DateTime): Task { Task(2, "walk dog", now, false) }

  /** The first `add` on a missing file creates it with task 1. */
  lemma SessionFirstAdd(now: DateTime)
    ensures ExecuteStep(Snapshot([], false, Absent), "add", ["buy", "milk"], now, true)
      == (Snapshot([Buy(now)], true, Records(Serialize([Buy(now)]))), Pass, [])
  {
    assert Join(["buy", "milk"], " ") == "buy milk";
    assert [] + [Buy(now)] == [Buy(now)];
  }

  /** The second `add` gets ID 2. */
  lemma SessionSecondAdd(now: DateTime, f: FileState)
    ensures ExecuteStep(Snapshot([Buy(now)], true, f), "add", ["walk", "dog"], now, true)
      == (Snapshot([Buy(now), Walk(now)], true, Records(Serialize([Buy(now), Walk(now)]))), Pass, [])
  {
    var s := Snapshot([Buy(now)], true, f);
    assert Join(["walk", "dog"], " ") == "walk dog";
    assert Dispatch("add", ["walk", "dog"]) == Ok(Add("walk dog"));
    assert MaxIdOrZero([Buy(now)]) == 1 by {
      assert [Buy(now)][..0] == [];
    }
    assert NextId([Buy(now)]) == 2;
    assert LoadStep(s) == (s, Pass);
    assert AddStep(s, "walk dog", now, true).0.tasks == [Buy(now), Walk(now)];
  }

  /** `list` shows both incomplete tasks. */
  lemma SessionListBoth(now: DateTime, f: FileState)
    ensures ExecuteStep(Snapshot([Buy(now), Walk(now)], true, f), "list", [], now, true)
      == (Snapshot([Buy(now), Walk(now)], true, f), Pass, [Buy(now), Walk(now)])
  {
    var ts := [Buy(now), Walk(now)];
    var s := Snapshot(ts, true, f);
    assert ts[..1] == [Buy(now)];
    assert [Buy(now)][..0] == [];
    assert Visible([Buy(now)], false) == [Buy(now)];
    assert Visible(ts, false) == ts;
    assert Dispatch("list", []) == Ok(List(false));
    assert ListStep(s, false) == (s, Ok(ts));
  }

  /** `complete 1` flags task 1. */
  lemma SessionComplete(now: DateTime, f: FileState)
    ensures var done := [Buy(now).(isComplete := true), Walk(now)];
      ExecuteStep(Snapshot([Buy(now), Walk(now)], true, f), "complete", ["1"], now, true)
      == (Snapshot(done, true, Records(Serialize(done))), Pass, [])
  {
    assert Atoi("1") == Some(1) by {
      assert DigitsValue("1") == 1 by { assert "1"[..0] == []; }
    }
    var ts := [Buy(now), Walk(now)];
    var s := Snapshot(ts, true, f);
    assert Dispatch("complete", ["1"]) == Ok(Complete(1));
    assert LoadStep(s) == (s, Pass);
    assert IndexOfId(ts, 1) == 0;
    assert MarkedAt(ts, 0) == [Buy(now).(isComplete := true), Walk(now)];
  }

  /** `list` then hides the completed task. */
  lemma SessionListIncomplete(now: DateTime, f: FileState)
    ensures var done := [Buy(now).(isComplete := true), Walk(now)];
      ExecuteStep(Snapshot(done, true, f), "list", [], now, true) == (Snapshot(done, true, f), Pass, [Walk(now)])
  {
    var done := [Buy(now).(isComplete := true), Walk(now)];
    assert done[..1] == [Buy(now).(isComplete := true)];
    assert [Buy(now).(isComplete := true)][..0] == [];
    assert Visible([Buy(now).(isComplete := true)], false) == [];
    assert Visible(done, false) == [Walk(now)];
    assert Dispatch("list", []) == Ok(List(false));
    var s := Snapshot(done, true, f);
    assert ListStep(s, false) == (s, Ok([Walk(now)]));
  }

  /** `complete 99` reports that no task has ID 99 and changes nothing. */
  lemma SessionCompleteMissing(now: DateTime, f: FileState)
    ensures var done := [Buy(now).(isComplete := true), Walk(now)];
      ExecuteStep(Snapshot(done, true, f), "complete", ["99"], now, true)
      == (Snapshot(done, true, f), Fail(NotFound(99)), [])
  {
    assert Atoi("99") == Some(99) by {
      assert DigitsValue("99") == 99 by { assert "99"[..1] == "9"; assert "9"[..0] == []; }
    }
  }

  /** `delete 2` removes task 2. */
  lemma SessionDelete(now: DateTime, f: FileState)
    ensures var done := [Buy(now).(isComplete := true), Walk(now)];
      var left := [Buy(now).(isComplete := true)];
      ExecuteStep(Snapshot(done, true, f), "delete", ["2"], now, true)
      == (Snapshot(left, true, Records(Serialize(left))), Pass, [])
  {
    assert Atoi("2") == Some(2) by {
      assert DigitsValue("2") == 2 by { assert "2"[..0] == []; }
    }
    var done := [Buy(now).(isComplete := true), Walk(now)];
    assert IndexOfId(done, 2) == 1;
    assert done[..1] + done[2..] == [Buy(now).(isComplete := true)];
  }

  /** `list -all` still shows the completed task 1. */
  lemma SessionListAll(now: DateTime, f: FileState)
    ensures var left := [Buy(now).(isComplete := true)];
      ExecuteStep(Snapshot(left, true, f), "list", ["-all"], now, true) == (Snapshot(left, true, f), Pass, left)
  {
    VisibleAll([Buy(now).(isComplete := true)]);
  }

  /**
   * A session on a missing file: two adds get IDs 1 and 2; completing 1 hides
   * it from `list`; completing 99 reports it missing; after deleting 2,
   * `list -all` still shows the completed task 1, which is all the file holds.
   * The steps run on one manager that stays loaded, whereas each run of the
   * program builds a fresh, unloaded `TaskManager`; the results agree because
   * every step saves and `TaskStore.SaveThenLoad` shows that a fresh manager
   * loading the saved file gets the same tasks.
   */
  lemma Session(now: DateTime)
    ensures
      var s0 := Snapshot([], false, Absent);
      var r1 := ExecuteStep(s0, "add", ["buy", "milk"], now, true);
      var r2 := ExecuteStep(r1.0, "add", ["walk", "dog"], now, true);
      var r3 := ExecuteStep(r2.0, "list", [], now, true);
      var r4 := ExecuteStep(r3.0, "complete", ["1"], now, true);
      var r5 := ExecuteStep(r4.0, "list", [], now, true);
      var r6 := ExecuteStep(r5.0, "complete", ["99"], now, true);
      var r7 := ExecuteStep(r6.0, "delete", ["2"], now, true);
      var r8 := ExecuteStep(r7.0, "list", ["-all"], now, true);
      && r1.1 == Pass && r1.0.tasks == [Buy(now)] && Buy(now).id == 1
      && r2.1 == Pass && r2.0.tasks == [Buy(now), Walk(now)] && Walk(now).id == 2
      && r3.2 == [Buy(now), Walk(now)]
      && r4.1 == Pass && r4.0.tasks == [Buy(now).(isComplete := true), Walk(now)]
      && r5.2 == [Walk(now)]
      && r6 == (r5.0, Fail(NotFound(99)), [])
      && r7.1 == Pass && r7.0.tasks == [Buy(now).(isComplete := true)]
      && r8.2 == [Buy(now).(isComplete := true)]
      && r8.0.file == Records(Serialize([Buy(now).(isComplete := true)]))
  {
    SessionFirstAdd(now);
    var f1 := Records(Serialize([Buy(now)]));
    SessionSecondAdd(now, f1);
    var f2 := Records(Serialize([Buy(now), Walk(now)]));
    SessionListBoth(now, f2);
    SessionComplete(now, f2);
    var done := [Buy(now).(isComplete := true), Walk(now)];
    var f4 := Records(Serialize(done));
    SessionListIncomplete(now, f4);
    SessionCompleteMissing(now, f4);
    SessionDelete(now, f4);
    var left := [Buy(now).(isComplete := true)];
    SessionListAll(now, Records(Serialize(left)));
  }
}
