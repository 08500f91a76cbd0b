# Task tracker registry in Dafny

This project models the in-memory registry of the `task-tracker` program, the
`TaskManager` of `src/main.rs`. The registry keeps a map of users keyed by id, a
map of tasks keyed by id, and a counter that hands out the next task id. Its
operations are: create an empty manager, register a user, add a task for an
existing owner, transfer a task to another existing user, mark a task
completed, and list the tasks with their owners' names.

The project has two modules.

- `Tasks` (`tasks.dfy`) works on values. It defines the `User`, `Task` and
  `Registry` records, the registry invariant `Valid`, and one function per
  operation. Each function returns the next registry and the operation's
  `Result`. The error messages are the program's own strings: "User does not
  exist", "New owner does not exist" and "Task not found". The module also
  defines runs of commands (`Command`, `Apply`, `Run`) and proves what holds
  of every run: the invariant is kept, nothing is removed, ids and descriptions
  are stable, completion is never undone, ids are allocated consecutively from
  1, and user registration is last-write-wins.
- `Manager` (`manager.dfy`) is the object the program actually mutates. The
  class `TaskManager` has the fields `users`, `tasks` and `nextTaskId`, and
  its methods update them in place. Each method is proved to move the object's
  state (`Model()`) exactly as the matching `Tasks` function moves a registry
  value. It also states the source's promises directly, in terms of `old`
  field values. `ListTasks` is a loop over the stored tasks. It picks the next
  task with `:|`, so no iteration order is fixed, just as the hash map fixes
  none. `Register`, `Session` and `SessionWithUnknownTask` are clients. Each
  of the two sessions is one possible run of the interactive program on
  concrete input, with the calls in the program's order: registration, a
  listing, one transfer, a listing, one completion, a listing (the second
  session keeps only its last listing). From the method contracts alone they
  derive every result.

Two facts about the code that the model keeps:

- `add_task` returns `Result<(), String>` (src/main.rs:39, :51), not the new
  id. The new task's id is the old value of the counter.
- A missing new owner in `transfer_task` is reported as "New owner does not
  exist" (src/main.rs:66). This is a different message from `add_task`'s
  "User does not exist" (src/main.rs:41).

## Model

| member | source | states |
|---|---|---|
| `Tasks.Empty` | src/main.rs:27-33 | a new registry has no users, no tasks and the counter at 1, and satisfies the invariant |
| `Tasks.AddUser` | src/main.rs:35-37 | the user filed under `id` afterwards is `User(id, name)`, replacing any earlier one; every other user, every task and the counter are unchanged; the invariant is kept |
| `Tasks.AddTask` | src/main.rs:39-52 | fails with "User does not exist" exactly when the owner is not registered, and then changes nothing; on success stores `Task(n, description, false, owner)` under the old counter value `n`, adds no other key, bumps the counter by exactly 1 and leaves users alone; in a valid registry `n` was a fresh key and every earlier task is unchanged; the invariant is kept |
| `Tasks.TransferTask` | src/main.rs:54-71 | a missing task gives "Task not found" whether or not the new owner exists; an existing task with a missing new owner gives "New owner does not exist"; both failures change nothing; it succeeds exactly when both exist, and then only that task's `owner` changes, every other task, the users and the counter stay, and it announces the task's id, the old owner and the new owner; the invariant is kept |
| `Tasks.CompleteTask` | src/main.rs:73-80 | fails with "Task not found" exactly when the task is absent, and then changes nothing; otherwise only that task's `completed` becomes true, whatever it was; the invariant is kept |
| `Tasks.ApplyEvolves` | src/main.rs:35-80 | a single call of any operation adds only task ids from the old counter up to the new one, and from a valid registry keeps the invariant and only lets the registry evolve |
| `Tasks.RunEvolves` | src/main.rs:35-80 | from a valid registry, any sequence of calls keeps the invariant, removes no user and no task, never lowers the counter, keeps every task's id and description, and never un-completes a task |
| `Tasks.RunAllocatesInOrder` | src/main.rs:43-50 | after any sequence of calls, the task ids are the old ones plus exactly those from the old counter up to the new one: ids are handed out consecutively and never reused |
| `Tasks.FromEmpty` | src/main.rs:27-52 | every registry reached from a new one is valid, and its task ids are exactly 1 up to the counter |
| `Tasks.RunLastWriteWins` | src/main.rs:35-37 | after any sequence of calls, the user under `id` is the one named by the last registration of `id`; if there was none, the user is whatever was there before |
| `Tasks.CompleteTaskIdempotent` | src/main.rs:73-80 | completing a task a second time leaves the registry and the result as after the first call |
| `Tasks.ListingSize` | src/main.rs:82-95 | in a valid registry the listing holds exactly as many distinct records as there are tasks |
| `Tasks.ListingNamesOwners` | src/main.rs:84-88 | in a valid registry every listed record carries the owner's registered name, so the "Unknown" fallback never applies |
| `Manager.TaskManager.constructor` | src/main.rs:27-33 | the new manager holds empty user and task maps and the counter 1, and satisfies the invariant |
| `Manager.TaskManager.AddUser` | src/main.rs:35-37 | the user map gets `User(id, name)` under `id`; tasks and counter are unchanged; the state is that of `Tasks.AddUser` |
| `Manager.TaskManager.AddTask` | src/main.rs:39-52 | reports "User does not exist" exactly when the owner is missing, and then changes nothing; otherwise inserts the new task under the old counter, which was a fresh key, and increments the counter; state and result are those of `Tasks.AddTask` |
| `Manager.TaskManager.TransferTask` | src/main.rs:54-71 | reports a missing task before a missing new owner and changes nothing on failure; on success only the task's owner changes, and the returned notice names the task, its old owner and the new owner; state and result are those of `Tasks.TransferTask` |
| `Manager.TaskManager.CompleteTask` | src/main.rs:73-80 | reports "Task not found" exactly when the task is missing, and then changes nothing; otherwise sets that task's `completed` to true; state and result are those of `Tasks.CompleteTask` |
| `Manager.TaskManager.ListTasks` | src/main.rs:82-95 | changes nothing and returns one record per stored task: as many records as tasks, no task id twice, every task id present; each record has the task's id, description, completed flag, and the owner's name or "Unknown"; the records are exactly the set `Tasks.Listing` |
| `Manager.Register` | src/main.rs:99-150 | the registration loops on concrete input: users 1 (Alice) and 2 (Bob), task "Buy milk" for user 1 stored as task 1, and the task for unregistered user 99 refused with "User does not exist" |
| `Manager.Session` | src/main.rs:152-199 | one run of the program after registration: the first listing shows task 1 owned by Alice and open; transferring task 1 to user 2 succeeds and announces (1, 1, 2); the next listing shows Bob as owner; completing task 1 succeeds; the last listing shows it completed |
| `Manager.SessionWithUnknownTask` | src/main.rs:156-199 | a run in which the ids entered for the transfer and the completion name no task: both report "Task not found", and the last listing still shows task 1 open and owned by Alice |

## Left out

- The interactive driver `main` (src/main.rs:98-200) is not modelled. It reads lines from standard input, trims them, and panics on a non-numeric id. The client methods `Manager.Register`, `Manager.Session` and `Manager.SessionWithUnknownTask` only replay the calls it makes on two concrete inputs.
- Printed output is not modelled as text. `transfer_task`'s message is returned as a `Notice` (task id, old owner, new owner). `list_tasks`'s lines are returned as `TaskRecord` values.
- The iteration order of the hash map in `list_tasks` is not fixed. The model states properties of the records as a set, and the loop chooses tasks in any order.
- The borrowed-or-owned string (`Cow`) used for the owner name is a memory-management detail, and the model does not represent it.
- `next_task_id` is a `usize` in the source; the model uses an unbounded `nat`, so overflow once `usize::MAX` ids have been handed out is not modelled.
- Names and descriptions are opaque strings. No trimming or encoding is modelled.
- The class methods require the object invariant `Valid()`. The constructor establishes it and every method keeps it, so every manager the program can hold satisfies it.
