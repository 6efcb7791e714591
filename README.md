# go-tasks task manager, modelled in Dafny

A model of `main.go` of go-tasks, a command-line to-do list that keeps its
tasks in a CSV file (`tasks.csv`). The model covers:

- the `Task` record and its four-field CSV row (`Task.ToStringSlice`,
  `parseTaskFromRecord`), including `strconv.Itoa`/`strconv.Atoi` on 64-bit
  IDs, `strconv.FormatBool`/`strconv.ParseBool`, and the timestamp layout
  `2006-01-02 15:04:05`;
- the `TaskManager` object (`tasks`, `loaded`) and its methods `LoadTasks`,
  `SaveTasks`, `getNextID`, `AddTask`, `ListTasks`, `MarkComplete` and
  `DeleteTask`, written as imperative methods with loops on a class;
- the command line: `parseCommand`, `executeCommand` and the four
  `handle*Command` functions.

Layout, one module per file:

- `wrappers.dfy` — `Option`, `Result`, `Outcome`.
- `decimal.dfy` — Go's `int` as `int64`, `Itoa`, `Atoi`.
- `datetime.dfy` — the creation timestamp, its `Format` and `Parse`.
- `codec.dfy` — `Task`, the header row, the row codec.
- `store.dfy` — `TaskStore`: what each `TaskManager` operation does, as pure
  functions of a `Snapshot` (the manager's fields plus the file's content),
  and the lemmas about them.
- `manager.dfy` — `TaskManager` and the file it is bound to (`TaskFile`); each
  method is proved to compute exactly the matching `TaskStore` function.
- `commands.dfy` — argument parsing and dispatch, `ExecuteCommand`, and a
  whole session proved step by step.

The file is abstract: `FileState` is `Absent` (what `os.IsNotExist` detects),
`OpenFails`, `ReadFails` (the CSV reader's quoting errors) or `Records(rows)`
with the rows already split into fields. `csv.Reader` leaves `FieldsPerRecord`
at 0, so `ReadAll` takes the width from the first row and fails on any later
row of another width; the model makes that check (`TaskStore.SameWidth`), and
such a file fails to load rather than having the short row skipped; `TaskFile.writable` says whether `os.Create`
succeeds. `time.Now()` is the parameter `now`.

Behaviour the model keeps as `main.go` has it:

- `list` shows completed tasks only when its first argument is exactly `-all`.
- The next ID is the largest ID plus one, with the accumulator starting at 0:
  an empty list, or one whose IDs are all below 1, gets ID 1; deleting the
  task with the largest ID lets that ID be handed out again.
- IDs read from the file may be negative or repeated: `Atoi` accepts a sign,
  and loading does not check uniqueness. Adding preserves distinct IDs; it
  does not create them.
- On a 64-bit platform Go's `int` has 64 bits: `getNextID` adds in 64-bit
  arithmetic, so a stored ID of 2^63-1 makes the next ID wrap to -2^63, and
  `Atoi` accepts exactly the range -2^63 to 2^63-1.
- The first row of an existing file is always dropped as the header, even when
  it is a valid task.
- `AddTask`, `MarkComplete` and `DeleteTask` change `tasks` before saving; when
  saving fails the change stays in memory and the error is returned.
- A failed open or read leaves `loaded` false, so the next operation tries to
  load again.
- After `delete 2` in the session `add buy milk`, `add walk dog`,
  `complete 1`, `list -all` still shows task 1, which is complete.

## Model

| member | source | states |
|---|---|---|
| `Decimal.NatToString` | main.go:230 | the decimal form of a number is non-empty and made of digits only |
| `Decimal.Itoa` | main.go:230 | `Itoa` output starts with a digit exactly when the number is non-negative, and with `-` otherwise |
| `Decimal.NatToStringValue` | main.go:230 | the digits `Itoa` writes denote the number itself |
| `Decimal.AtoiItoa` | main.go:205-208 | `Atoi` reads back every 64-bit value `Itoa` writes |
| `Decimal.AtoiShape` | main.go:205-208 | `Atoi` accepts only a string that starts with a sign or a digit and ends with a digit |
| `Decimal.AtoiRejectsOverflow` | main.go:205-208 | `Atoi` returns an error for digit strings beyond 64 bits, with or without `+`; with `-` only below -2^63 |
| `DateTime.Padded` | main.go:232 | each zero-padded field has exactly the layout's width and only digits |
| `DateTime.PaddedValue` | main.go:232 | a zero-padded field denotes the value it was written from |
| `DateTime.Format` | main.go:232 | the timestamp column is 19 characters long |
| `DateTime.ParseFormat` | main.go:210-213 | parsing the saved timestamp gives back the same timestamp, to the second |
| `DateTime.FormatParse` | main.go:210-213 | every string the parser accepts is the formatted form of the timestamp it returns |
| `Codec.FormatBool` | main.go:233 | `ParseBool` reads the completion column back as the same flag |
| `Codec.ToStringSlice` | main.go:228-235 | a task is written as exactly four fields |
| `Codec.ParseTaskFromRecord` | main.go:200-203 | a row without exactly four fields is refused with the length error; an accepted row has four fields and the description is the second field unchanged |
| `Codec.ParseTaskFromRecordRoundTrip` | main.go:200-235 | reading back the row written for any task gives the same task: ID, description, timestamp, flag |
| `Codec.ParseTaskFromRecordAccepts` | main.go:205-225 | a four-field row is accepted exactly when the ID, timestamp and flag fields all parse, and the task carries their values |
| `Codec.HeaderIsNotATask` | main.go:90 | the header row is refused as a task, because "ID" is not a number |
| `TaskStore.MaxIdOrZero` | main.go:191-196 | the accumulator ends at a value in [0, 2^63-1] that bounds every ID and is either 0 or some task's ID |
| `TaskStore.NextIdFresh` | main.go:186-198 | below the wrap-around the next ID is at least 1 and greater than every existing ID |
| `TaskStore.NextIdWithoutPositiveIds` | main.go:187-197 | with no positive ID (the empty list included) the next ID is 1 |
| `TaskStore.NextIdWrapsAtMaxInt64` | main.go:197 | a stored ID of 2^63-1 makes the next ID -2^63 |
| `TaskStore.NextIdAfterAppend` | main.go:191-196 | appending a task moves the maximum to that task's ID if it is larger, and leaves it otherwise |
| `TaskStore.IndexOfId` | main.go:153-154 | the search stops at the first task with the ID, or at the end when there is none |
| `TaskStore.IndexOfIdFound` | main.go:153-164 | the search stops before the end exactly when some task has the ID |
| `TaskStore.VisibleAll` | main.go:135-136 | with `-all` every task is printed, in stored order |
| `TaskStore.VisibleMembers` | main.go:135-143 | without `-all` a task is printed exactly when it is stored and incomplete |
| `TaskStore.VisibleInOrder` | main.go:135-143 | printed tasks keep their stored relative order |
| `TaskStore.VisibleCounts` | main.go:135-143 | without `-all` the printed tasks plus the completed ones are the stored tasks, counted with multiplicity |
| `TaskStore.DecodeRowsAppend` | main.go:66-72 | each row is decoded independently: decoding concatenated rows concatenates the results |
| `TaskStore.DecodeRowsFromRows` | main.go:66-72 | loading yields at most one task per row, and each task is what some row decodes to |
| `TaskStore.DecodeRowsKeepsParsed` | main.go:66-71 | every row `parseTaskFromRecord` accepts, non-canonical spellings such as `+7`, `007`, `TRUE` or `1` included, loads as its task, in its place among the decoded neighbours |
| `TaskStore.DecodeRowsSkipsMalformed` | main.go:67-70 | a row that fails to decode is skipped and the rows around it load as if it were absent (in a loaded file such a row has the header's width; see `LoadedRowsHaveFourFields`) |
| `TaskStore.SerializeSameWidth` | main.go:90-101 | every row `SaveTasks` writes, header included, has four fields, so the CSV reader accepts the saved file |
| `TaskStore.LoadedRowsHaveFourFields` | main.go:58-70 | under a four-field header, a file that loads has no row rejected for its length: a data row of another width makes the whole read fail instead |
| `TaskStore.DecodeEncoded` | main.go:96-101 | decoding the rows written for a task list gives that list back |
| `TaskStore.DecodeSerialized` | main.go:65-72 | dropping the header of a saved file and decoding the rest gives back the saved list |
| `TaskStore.SaveThenLoad` | main.go:90-101 | saving, then loading into a fresh unloaded manager, restores the same task list |
| `TaskStore.LoadDropsFirstRow` | main.go:58-76 | when every row has the first row's width, loading drops the first row whatever it holds, appends the decodable rows after it in order and marks the manager loaded; when some row has another width the read fails and nothing changes; an empty file adds nothing |
| `TaskStore.LoadOutcomes` | main.go:48-62 | a missing file loads as no tasks and marks the manager loaded; an open or read error, a row of another width than the first included, aborts and leaves it unloaded; a successful load keeps the earlier tasks as a prefix |
| `TaskStore.LoadIdempotent` | main.go:44-46 | after a successful load, loading again changes nothing |
| `TaskStore.LoadFailureAborts` | main.go:107-109 | when loading fails, add, complete, delete and list return that error and change nothing |
| `TaskStore.AddAppends` | main.go:106-121 | add appends exactly the task with the next ID, the description, `now` and the flag false at the end; the manager is loaded; it succeeds exactly when the file can be created, which then holds the new list; otherwise the file is unchanged |
| `TaskStore.AppendNextIdDistinct` | main.go:111-118 | below the wrap-around the new ID is at least 1, not yet used, and distinct IDs stay distinct |
| `TaskStore.AddTwiceConsecutive` | main.go:186-198 | two adds in a row receive consecutive IDs |
| `TaskStore.DeleteNewestReusesId` | main.go:172-174 | deleting the task just added restores the previous list, whose next ID is the deleted task's ID again |
| `TaskStore.MarkedAtShape` | main.go:155 | flagging the task at an index sets its flag, keeps its other fields, the length and every other task, and is idempotent |
| `TaskStore.CompleteFlagsFirst` | main.go:148-165 | complete flags the first task with the ID, the manager is loaded, and it succeeds exactly when the file can be created, which then holds the flagged list; otherwise the file is unchanged; with no such task it returns not-found and only the load has happened |
| `TaskStore.CompleteIdempotent` | main.go:153-160 | completing the same ID a second time succeeds and leaves the list as it was |
| `TaskStore.RemovedAtShape` | main.go:174 | the splice has one element fewer, shifts the later tasks down by one, loses exactly that task from the multiset, and keeps the rest in order |
| `TaskStore.RemovedAtDistinct` | main.go:174 | with distinct IDs, no task with the removed ID remains and IDs stay distinct |
| `TaskStore.DeleteRemovesFirst` | main.go:167-184 | delete splices out the first task with the ID, the manager is loaded, and it succeeds exactly when the file can be created, which then holds the shorter list; otherwise the file is unchanged; with no such task it returns not-found and only the load has happened |
| `TaskStore.ListChangesNothing` | main.go:127-146 | on a loaded manager list changes no state and returns the visible tasks |
| `Manager.TaskManager.constructor` | main.go:35-41 | a new manager has no tasks, is not loaded, and is bound to the given file |
| `Manager.TaskManager.LoadTasks` | main.go:43-77 | a file whose rows differ in width fails as a read error; otherwise the loop appends the decoded rows after the header, skipping bad ones; the new state is exactly the load step's |
| `Manager.TaskManager.SaveTasks` | main.go:79-104 | the loop writes the header and one row per task in order, replacing the file; an uncreatable file gives an error and is left as it was |
| `Manager.TaskManager.GetNextId` | main.go:186-198 | the loop's maximum plus one (with 64-bit wrap-around) is the next ID, 1 on an empty list |
| `Manager.TaskManager.AddTask` | main.go:106-125 | the new state and error are exactly those of the add step |
| `Manager.TaskManager.ListTasks` | main.go:127-146 | the loop returns exactly the visible tasks in order; state changes only by loading |
| `Manager.TaskManager.MarkComplete` | main.go:148-165 | the in-place update of the first match and its save give exactly the complete step's state and error |
| `Manager.TaskManager.DeleteTask` | main.go:167-184 | the splice of the first match and its save give exactly the delete step's state and error |
| `Commands.SplitJoin` | main.go:291 | the words of `add` are recovered from the description when none contains a space |
| `Commands.ParseCommand` | main.go:256-269 | fewer than two arguments is the no-command error; otherwise the vector is the program name, the command and its arguments |
| `Commands.ExecuteCommand` | main.go:271-284 | running a command on a manager gives exactly the state, error and printed tasks of the execute step |
| `Commands.DispatchAdd` | main.go:286-293 | `add` needs at least one word; the description is the words joined by single spaces |
| `Commands.DispatchList` | main.go:294-301 | `list` always dispatches, showing completed tasks exactly when the first argument is `-all` |
| `Commands.DispatchId` | main.go:302-323 | `complete` and `delete` fail without an argument or with one `Atoi` refuses, and otherwise target the ID `Atoi` reads |
| `Commands.DispatchIdRoundTrip` | main.go:307-311 | the decimal form of any ID targets that ID |
| `Commands.DispatchUnknown` | main.go:281-282 | any other command is refused with the unknown-command error and changes nothing |
| `Commands.UsageErrorChangesNothing` | main.go:286-289 | an argument error is returned before anything is loaded, changed or saved |
| `Commands.SessionFirstAdd` | main.go:106-121 | the first add on a missing file creates task 1 and saves it |
| `Commands.SessionSecondAdd` | main.go:186-198 | the second add receives ID 2 |
| `Commands.SessionListBoth` | main.go:135-143 | list shows both incomplete tasks in order |
| `Commands.SessionComplete` | main.go:153-160 | `complete 1` flags task 1 and saves |
| `Commands.SessionListIncomplete` | main.go:135-143 | list then hides the completed task |
| `Commands.SessionCompleteMissing` | main.go:164 | `complete 99` returns not-found and changes nothing |
| `Commands.SessionDelete` | main.go:172-177 | `delete 2` removes task 2 and saves |
| `Commands.SessionListAll` | main.go:294-300 | `list -all` shows the remaining completed task |
| `Commands.Session` | main.go:271-284 | the whole session: IDs 1 and 2, the completed task hidden then shown with `-all`, not-found for 99, and a final file holding only task 1 |

## Left out

- File I/O: `os.Open`, `os.Create`, `file.Close` and `os.IsNotExist` become the
  `FileState` of a `TaskFile` and its `writable` flag; the file name and the
  `TasksFile` constant are not modelled.
- CSV quoting and escaping (`encoding/csv`): rows are already split into fields.
- TaskStore.SaveThenLoad: the model's file gives back exactly the rows that were written. Go's `encoding/csv` reader turns a `\r\n` inside a quoted field into `\n`, so in the program a description containing `\r\n` comes back from a save and load with `\n` in its place. The round trip is proved only for the model's exact file.
- A 32-bit platform: Go's `int` is modelled as 64 bits; on a 32-bit build the `Atoi` bounds and the wrap-around in `getNextID` are at 2^31-1 instead.
- Manager.TaskManager.SaveTasks: only the failure of `os.Create` is modelled. The CSV writer's per-row errors and the error of the deferred `Flush` are not, nor a file left half written.
- `time.Now()` is the parameter `now`, already at second resolution; the
  sub-second part that `Format` drops and the monotonic clock reading are not
  modelled.
- Time zones: `Format` writes the value's local wall clock and `Parse` returns
  UTC. The model keeps only the wall-clock fields.
- DateTime.Parse: refuses three inputs Go's `time.Parse` accepts with this layout: an hour written with one digit, a fractional second after the seconds field, and a run of several spaces between the date and the time (Go matches the layout's space against any run of spaces). A hand-edited row with such a timestamp loads in Go but is skipped by the model; `FormatParse` holds because the model's parser accepts only the canonical form.
- DateTime.Format: only years 0 to 9999 are modelled; Go writes other years with a sign or more digits, and `Parse` refuses those.
- `tabwriter` alignment, the `Created` column format, every printed message, and
  the error of the final `w.Flush()` in `ListTasks`: the model keeps only which
  tasks are printed, in what order.
- `main()`: reading `os.Args`, the usage message, and printing errors.
- Cross-process locking and atomic replacement of the file: the source has
  neither, and a concurrent writer's update can be lost.
