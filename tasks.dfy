/** The value-level model of the task tracker's registry: its records, the
    state it keeps, one function per operation giving the next state and the
    result, and the properties that hold of every sequence of operations. */
module Tasks {

  /** A registered user. The registry files it under its own id. */
  datatype User = User(id: nat, name: string)

  /** A task. `owner` refers to a user by id; it is not a containment. */
  datatype Task = Task(id: nat, description: string, completed: bool, owner: nat)

  /** The result of an operation: a value, or the error message it reports. */
  datatype Result<T> = Ok(value: T) | Err(message: string)

  datatype Option<T> = None | Some(value: T)

  const UserDoesNotExist: string := "User does not exist"
  const NewOwnerDoesNotExist: string := "New owner does not exist"
  const TaskNotFound: string := "Task not found"
  /** The owner name shown for a task whose owner id is not registered. */
  const UnknownOwner: string := "Unknown"

  /** What a successful transfer announces: the task's id, the owner it had
      and the owner it has now. */
  datatype Notice = Notice(taskId: nat, oldOwner: nat, newOwner: nat)

  /** One line of the task listing, before it is rendered as text. */
  datatype TaskRecord = TaskRecord(id: nat, description: string, ownerName: string, completed: bool)

  /** The whole state of the registry. */
  datatype Registry = Registry(users: map<nat, User>, tasks: map<nat, Task>, nextTaskId: nat)

  /** The registry invariant: users and tasks are filed under their own ids,
      every task id was allocated already, the counter starts at 1, and every
      owner is a registered user. */
  predicate Valid(r: Registry)
  {
    && r.nextTaskId >= 1
    && (forall u | u in r.users :: r.users[u].id == u)
    && (forall k | k in r.tasks :: r.tasks[k].id == k && k < r.nextTaskId && r.tasks[k].owner in r.users)
  }

  /** A fresh registry: no users, no tasks, and the first task id is 1. */
  function Empty(): (r: Registry)
    ensures Valid(r)
    ensures |r.users| == 0 && |r.tasks| == 0 && r.nextTaskId == 1
  {
    Registry(map[], map[], 1)
  }

  /** Registers `name` under `id`, replacing any user already there. */
  function AddUser(r: Registry, id: nat, name: string): (r': Registry)
    ensures id in r'.users && r'.users[id] == User(id, name)
    ensures r'.users.Keys == r.users.Keys + {id}
    ensures forall u | u in r.users && u != id :: r'.users[u] == r.users[u]
    ensures r'.tasks == r.tasks && r'.nextTaskId == r.nextTaskId
    ensures Valid(r) ==> Valid(r')
  {
    r.(users := r.users[id := User(id, name)])
  }

  /** Creates a task owned by `ownerId` under the next task id. */
  function AddTask(r: Registry, ownerId: nat, description: string): (res: (Registry, Result<()>))
    ensures res.1.Err? <==> ownerId !in r.users
    ensures res.1.Err? ==> res.1.message == UserDoesNotExist && res.0 == r
    ensures res.1.Ok? ==>
      && res.0.tasks.Keys == r.tasks.Keys + {r.nextTaskId}
      && res.0.tasks[r.nextTaskId] == Task(r.nextTaskId, description, false, ownerId)
      && res.0.nextTaskId == r.nextTaskId + 1
      && res.0.users == r.users
    ensures Valid(r) && res.1.Ok? ==>
      && r.nextTaskId !in r.tasks
      && forall k | k in r.tasks :: res.0.tasks[k] == r.tasks[k]
    ensures Valid(r) ==> Valid(res.0)
  {
    if ownerId !in r.users then
      (r, Err(UserDoesNotExist))
    else
      var task := Task(r.nextTaskId, description, false, ownerId);
      (r.(tasks := r.tasks[r.nextTaskId := task], nextTaskId := r.nextTaskId + 1), Ok(()))
  }

  /** Gives task `taskId` to `newOwnerId`. The task is looked up first, the
      new owner second. */
  function TransferTask(r: Registry, taskId: nat, newOwnerId: nat): (res: (Registry, Result<Notice>))
    ensures taskId !in r.tasks ==> res.1 == Err(TaskNotFound) && res.0 == r
    ensures taskId in r.tasks && newOwnerId !in r.users ==> res.1 == Err(NewOwnerDoesNotExist) && res.0 == r
    ensures res.1.Ok? <==> taskId in r.tasks && newOwnerId in r.users
    ensures res.1.Ok? ==>
      && res.1.value == Notice(r.tasks[taskId].id, r.tasks[taskId].owner, newOwnerId)
      && res.0.tasks.Keys == r.tasks.Keys
      && res.0.tasks[taskId] == r.tasks[taskId].(owner := newOwnerId)
      && (forall k | k in r.tasks && k != taskId :: res.0.tasks[k] == r.tasks[k])
      && res.0.users == r.users && res.0.nextTaskId == r.nextTaskId
    ensures Valid(r) ==> Valid(res.0)
  {
    if taskId in r.tasks then
      if newOwnerId in r.users then
        var task := r.tasks[taskId];
        (r.(tasks := r.tasks[taskId := task.(owner := newOwnerId)]),
         Ok(Notice(task.id, task.owner, newOwnerId)))
      else
        (r, Err(NewOwnerDoesNotExist))
    else
      (r, Err(TaskNotFound))
  }

  /** Marks task `taskId` completed, whether or not it was already. */
  function CompleteTask(r: Registry, taskId: nat): (res: (Registry, Result<()>))
    ensures res.1.Err? <==> taskId !in r.tasks
    ensures res.1.Err? ==> res.1.message == TaskNotFound && res.0 == r
    ensures res.1.Ok? ==>
      && res.0.tasks.Keys == r.tasks.Keys
      && res.0.tasks[taskId] == r.tasks[taskId].(completed := true)
      && (forall k | k in r.tasks && k != taskId :: res.0.tasks[k] == r.tasks[k])
      && res.0.users == r.users && res.0.nextTaskId == r.nextTaskId
    ensures Valid(r) ==> Valid(res.0)
  {
    if taskId in r.tasks then
      var task := r.tasks[taskId];
      (r.(tasks := r.tasks[taskId := task.(completed := true)]), Ok(()))
    else
      (r, Err(TaskNotFound))
  }

  /** The name shown for the owner `ownerId`. */
  function OwnerName(users: map<nat, User>, ownerId: nat): string
  {
    if ownerId in users then users[ownerId].name else UnknownOwner
  }

  /** The listing record of `task`, with its owner's name resolved in `users`. */
  function RecordOf(users: map<nat, User>, task: Task): TaskRecord
  {
    TaskRecord(task.id, task.description, OwnerName(users, task.owner), task.completed)
  }

  /** The set of records the listing shows: one per stored task. */
  function Listing(r: Registry): set<TaskRecord>
  {
    set k | k in r.tasks :: RecordOf(r.users, r.tasks[k])
  }

  /** One call on the registry, as the interactive driver issues them. */
  datatype Command =
    | AddUserCmd(id: nat, name: string)
    | AddTaskCmd(ownerId: nat, description: string)
    | TransferTaskCmd(taskId: nat, newOwnerId: nat)
    | CompleteTaskCmd(taskId: nat)

  /** The registry after `c`, whatever the call reported. */
  function Apply(r: Registry, c: Command): Registry
  {
    match c
    case AddUserCmd(id, name) => AddUser(r, id, name)
    case AddTaskCmd(ownerId, description) => AddTask(r, ownerId, description).0
    case TransferTaskCmd(taskId, newOwnerId) => TransferTask(r, taskId, newOwnerId).0
    case CompleteTaskCmd(taskId) => CompleteTask(r, taskId).0
  }

  /** The registry after the calls `cmds`, in order. */
  function Run(r: Registry, cmds: seq<Command>): Registry
    decreases |cmds|
  {
    if cmds == [] then r else Run(Apply(r, cmds[0]), cmds[1..])
  }

  /** How a registry may change over time: no user or task disappears, the
      counter never goes down, a task keeps its id and description, and a
      completed task stays completed. */
  ghost predicate Evolves(r: Registry, r': Registry)
  {
    && r.users.Keys <= r'.users.Keys
    && r.nextTaskId <= r'.nextTaskId
    && forall k | k in r.tasks ::
         && k in r'.tasks
         && r'.tasks[k].id == r.tasks[k].id
         && r'.tasks[k].description == r.tasks[k].description
         && (r.tasks[k].completed ==> r'.tasks[k].completed)
  }

  /** The tasks of `r'` are those of `r` plus exactly the ids allocated in
      between, `r.nextTaskId` up to but not including `r'.nextTaskId`. */
  ghost predicate AllocatesInOrder(r: Registry, r': Registry)
  {
    && r.nextTaskId <= r'.nextTaskId
    && (forall k | k in r'.tasks :: k in r.tasks || r.nextTaskId <= k < r'.nextTaskId)
    && (forall k: nat | r.nextTaskId <= k < r'.nextTaskId :: k in r'.tasks)
    && (forall k | k in r.tasks :: k in r'.tasks)
  }

  lemma ApplyEvolves(r: Registry, c: Command)
    ensures AllocatesInOrder(r, Apply(r, c))
    ensures Valid(r) ==> Valid(Apply(r, c)) && Evolves(r, Apply(r, c))
  {
  }

  /** From a valid registry, any sequence of calls keeps the invariant and
      only lets the registry evolve: nothing is removed, ids and descriptions are stable, the counter
      never decreases and completion is never undone. */
  lemma {:induction false} RunEvolves(r: Registry, cmds: seq<Command>)
    requires Valid(r)
    ensures Valid(Run(r, cmds))
    ensures Evolves(r, Run(r, cmds))
    decreases |cmds|
  {
    if cmds != [] {
      ApplyEvolves(r, cmds[0]);
      RunEvolves(Apply(r, cmds[0]), cmds[1..]);
    }
  }

  /** Any sequence of calls allocates task ids one after the other: the new
      tasks are exactly those from the old counter up to the new one. */
  lemma {:induction false} RunAllocatesInOrder(r: Registry, cmds: seq<Command>)
    ensures AllocatesInOrder(r, Run(r, cmds))
    decreases |cmds|
  {
    if cmds != [] {
      ApplyEvolves(r, cmds[0]);
      RunAllocatesInOrder(Apply(r, cmds[0]), cmds[1..]);
    }
  }

  /** From a fresh registry, the stored task ids are exactly 1 up to the
      counter: ids start at 1, are consecutive and are never reused. */
  lemma FromEmpty(cmds: seq<Command>)
    ensures Valid(Run(Empty(), cmds))
    ensures forall k | k in Run(Empty(), cmds).tasks :: 1 <= k < Run(Empty(), cmds).nextTaskId
    ensures forall k: nat | 1 <= k < Run(Empty(), cmds).nextTaskId :: k in Run(Empty(), cmds).tasks
  {
    RunEvolves(Empty(), cmds);
    RunAllocatesInOrder(Empty(), cmds);
  }

  /** The name the last `AddUserCmd` for `id` in `cmds` registers, if any. */
  function LastName(cmds: seq<Command>, id: nat): Option<string>
    decreases |cmds|
  {
    if cmds == [] then None
    else
      match LastName(cmds[1..], id)
      case Some(name) => Some(name)
      case None => if cmds[0].AddUserCmd? && cmds[0].id == id then Some(cmds[0].name) else None
  }

  /** Registration is last-write-wins: after any sequence of calls, the user
      filed under `id` is the one the last registration of `id` named, or the
      one there before if `id` was not registered again. */
  lemma {:induction false} RunLastWriteWins(r: Registry, cmds: seq<Command>, id: nat)
    ensures LastName(cmds, id).Some? ==>
      id in Run(r, cmds).users && Run(r, cmds).users[id] == User(id, LastName(cmds, id).value)
    ensures LastName(cmds, id).None? ==>
      (id in Run(r, cmds).users <==> id in r.users) &&
      (id in r.users ==> Run(r, cmds).users[id] == r.users[id])
    decreases |cmds|
  {
    if cmds != [] {
      RunLastWriteWins(Apply(r, cmds[0]), cmds[1..], id);
    }
  }

  /** Completing a task twice leaves the registry as completing it once, and
      the second call succeeds too. */
  lemma CompleteTaskIdempotent(r: Registry, taskId: nat)
    ensures CompleteTask(CompleteTask(r, taskId).0, taskId) == (CompleteTask(r, taskId).0, CompleteTask(r, taskId).1)
  {
    if taskId in r.tasks {
      var r1 := CompleteTask(r, taskId).0;
      assert r1.tasks[taskId := r1.tasks[taskId].(completed := true)] == r1.tasks;
    }
  }

  /** In a valid registry the listing has exactly one record per task: no two
      tasks produce the same record. */
  lemma {:induction false} ListingSize(r: Registry)
    requires Valid(r)
    ensures |Listing(r)| == |r.tasks|
    decreases |r.tasks|
  {
    if r.tasks != map[] {
      var k :| k in r.tasks;
      var r0 := r.(tasks := r.tasks - {k});
      var rec := RecordOf(r.users, r.tasks[k]);
      ListingSize(r0);
      forall x | x in Listing(r) ensures x in Listing(r0) + {rec} {
        var j :| j in r.tasks && x == RecordOf(r.users, r.tasks[j]);
        if j != k {
          assert j in r0.tasks;
        }
      }
      assert Listing(r) == Listing(r0) + {rec};
      assert rec !in Listing(r0);
      assert r.tasks.Keys == r0.tasks.Keys + {k};
    }
  }

  /** In a valid registry every owner is registered, so the listing never
      falls back to "Unknown" for a missing owner: each record carries the
      owner's registered name. */
  lemma ListingNamesOwners(r: Registry)
    requires Valid(r)
    ensures forall k | k in r.tasks :: RecordOf(r.users, r.tasks[k]).ownerName == r.users[r.tasks[k].owner].name
  {
  }
}
