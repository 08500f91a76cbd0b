/** The task manager as the program keeps it: one object whose user map, task
    map and id counter its methods update in place. Each method is proved to
    take the object's state exactly as the matching function of `Tasks` takes
    a registry value, so every property proved there holds of the object. */
module Manager {
  import opened Tasks

  class TaskManager {
    var users: map<nat, User>
    var tasks: map<nat, Task>
    var nextTaskId: nat

    /** The registry value the object currently holds. */
    ghost function Model(): Registry
      reads this
    {
      Registry(users, tasks, nextTaskId)
    }

    /** The object invariant: that of the registry it holds. */
    ghost predicate Valid()
      reads this
    {
      Tasks.Valid(Model())
    }

    /** A manager with no users, no tasks, and task ids starting at 1. */
    constructor ()
      ensures Valid()
      ensures Model() == Empty()
      ensures users == map[] && tasks == map[] && nextTaskId == 1
    {
      users := map[];
      tasks := map[];
      nextTaskId := 1;
    }

    /** Registers `name` under `id`; a second registration of `id` replaces
        the first. */
    method AddUser(id: nat, name: string)
      requires Valid()
      modifies this
      ensures Valid()
      ensures Model() == Tasks.AddUser(old(Model()), id, name)
      ensures users == old(users)[id := User(id, name)]
      ensures tasks == old(tasks) && nextTaskId == old(nextTaskId)
    {
      users := users[id := User(id, name)];
    }

    /** Creates a task for `ownerId` under the next id, or reports that the
        owner is not registered and changes nothing. */
    method AddTask(ownerId: nat, description: string) returns (result: Result<()>)
      requires Valid()
      modifies this
      ensures Valid()
      ensures (Model(), result) == Tasks.AddTask(old(Model()), ownerId, description)
      ensures result == Err(UserDoesNotExist) <==> ownerId !in old(users)
      ensures result.Ok? ==>
        && old(nextTaskId) !in old(tasks)
        && tasks == old(tasks)[old(nextTaskId) := Task(old(nextTaskId), description, false, ownerId)]
        && nextTaskId == old(nextTaskId) + 1
      ensures result.Err? ==> tasks == old(tasks) && nextTaskId == old(nextTaskId)
      ensures users == old(users)
    {
      if ownerId !in users {
        return Err(UserDoesNotExist);
      }
      var task := Task(nextTaskId, description, false, ownerId);
      tasks := tasks[nextTaskId := task];
      nextTaskId := nextTaskId + 1;
      return Ok(());
    }

    /** Gives task `taskId` to `newOwnerId`, announcing the change; a missing
        task is reported before a missing new owner, and a failure changes
        nothing. */
    method TransferTask(taskId: nat, newOwnerId: nat) returns (result: Result<Notice>)
      requires Valid()
      modifies this
      ensures Valid()
      ensures (Model(), result) == Tasks.TransferTask(old(Model()), taskId, newOwnerId)
      ensures taskId !in old(tasks) ==> result == Err(TaskNotFound)
      ensures taskId in old(tasks) && newOwnerId !in old(users) ==> result == Err(NewOwnerDoesNotExist)
      ensures result.Ok? ==>
        && taskId in old(tasks)
        && result.value == Notice(taskId, old(tasks)[taskId].owner, newOwnerId)
        && tasks == old(tasks)[taskId := old(tasks)[taskId].(owner := newOwnerId)]
      ensures result.Err? ==> tasks == old(tasks)
      ensures users == old(users) && nextTaskId == old(nextTaskId)
    {
      if taskId in tasks {
        var task := tasks[taskId];
        if newOwnerId in users {
          var oldOwnerId := task.owner;
          tasks := tasks[taskId := task.(owner := newOwnerId)];
          result := Ok(Notice(task.id, oldOwnerId, newOwnerId));
        } else {
          result := Err(NewOwnerDoesNotExist);
        }
      } else {
        result := Err(TaskNotFound);
      }
    }

    /** Marks task `taskId` completed, whatever it was before, or reports that
        there is no such task and changes nothing. */
    method CompleteTask(taskId: nat) returns (result: Result<()>)
      requires Valid()
      modifies this
      ensures Valid()
      ensures (Model(), result) == Tasks.CompleteTask(old(Model()), taskId)
      ensures result == Err(TaskNotFound) <==> taskId !in old(tasks)
      ensures result.Ok? ==> tasks == old(tasks)[taskId := old(tasks)[taskId].(completed := true)]
      ensures result.Err? ==> tasks == old(tasks)
      ensures users == old(users) && nextTaskId == old(nextTaskId)
    {
      if taskId in tasks {
        var task := tasks[taskId];
        tasks := tasks[taskId := task.(completed := true)];
        result := Ok(());
      } else {
        result := Err(TaskNotFound);
      }
    }

    /** The listing: one record per stored task, in an order the method does
        not fix, each with the owner's name looked up in the user map. */
    method ListTasks() returns (listing: seq<TaskRecord>)
      requires Valid()
      ensures |listing| == |tasks|
      ensures forall i | 0 <= i < |listing| ::
        listing[i].id in tasks && listing[i] == RecordOf(users, tasks[listing[i].id])
      ensures forall i, j | 0 <= i < j < |listing| :: listing[i].id != listing[j].id
      ensures forall k | k in tasks :: exists i | 0 <= i < |listing| :: listing[i].id == k
      ensures forall rec :: rec in listing <==> rec in Listing(Model())
    {
      listing := [];
      var remaining := tasks.Keys;
      while remaining != {}
        invariant remaining <= tasks.Keys
        invariant |listing| + |remaining| == |tasks|
        invariant forall i | 0 <= i < |listing| ::
          listing[i].id in tasks && listing[i].id !in remaining &&
          listing[i] == RecordOf(users, tasks[listing[i].id])
        invariant forall i, j | 0 <= i < j < |listing| :: listing[i].id != listing[j].id
        invariant forall k | k in tasks && k !in remaining :: exists i | 0 <= i < |listing| :: listing[i].id == k
        decreases remaining
      {
        var k :| k in remaining;
        ghost var before := listing;
        listing := listing + [RecordOf(users, tasks[k])];
        assert listing[|before|].id == k;
        forall j | j in tasks && j !in remaining - {k}
          ensures exists i | 0 <= i < |listing| :: listing[i].id == j
        {
          if j != k {
            var i :| 0 <= i < |before| && before[i].id == j;
            assert listing[i] == before[i];
          }
        }
        remaining := remaining - {k};
      }
    }
  }

  /** The registration phase of the runs below: users 1 (Alice) and 2 (Bob),
      then the task "Buy milk" for user 1 and the task "X" for the
      unregistered user 99, which is refused. */
  method Register() returns (manager: TaskManager, missingOwner: Result<()>)
    ensures fresh(manager) && manager.Valid()
    ensures missingOwner == Err(UserDoesNotExist)
    ensures manager.users == map[1 := User(1, "Alice"), 2 := User(2, "Bob")]
    ensures manager.tasks == map[1 := Task(1, "Buy milk", false, 1)]
  {
    manager := new TaskManager();
    manager.AddUser(1, "Alice");
    manager.AddUser(2, "Bob");
    var added := manager.AddTask(1, "Buy milk");
    missingOwner := manager.AddTask(99, "X");
  }

  /** One run of the interactive program, with input that registers Alice
      as user 1 and Bob as user 2, adds "Buy milk" for user 1 and "X" for the
      unregistered user 99, then transfers task 1 to user 2 and completes
      task 1. The calls come in the program's order, with a listing after the
      tasks are added, after the transfer and after the completion. The
      contracts of the methods alone fix every result. */
  method Session() returns (missingOwner: Result<()>, afterAdding: seq<TaskRecord>,
                            transfer: Result<Notice>, afterTransfer: seq<TaskRecord>,
                            completion: Result<()>, afterCompletion: seq<TaskRecord>)
    ensures missingOwner == Err(UserDoesNotExist)
    ensures afterAdding == [TaskRecord(1, "Buy milk", "Alice", false)]
    ensures transfer == Ok(Notice(1, 1, 2))
    ensures afterTransfer == [TaskRecord(1, "Buy milk", "Bob", false)]
    ensures completion == Ok(())
    ensures afterCompletion == [TaskRecord(1, "Buy milk", "Bob", true)]
  {
    var manager;
    manager, missingOwner := Register();
    assert |manager.tasks| == 1;
    afterAdding := manager.ListTasks();
    assert afterAdding[0].id == 1;
    assert afterAdding == [TaskRecord(1, "Buy milk", "Alice", false)];
    transfer := manager.TransferTask(1, 2);
    assert manager.tasks == map[1 := Task(1, "Buy milk", false, 2)];
    assert |manager.tasks| == 1;
    afterTransfer := manager.ListTasks();
    assert afterTransfer[0].id == 1;
    assert afterTransfer == [TaskRecord(1, "Buy milk", "Bob", false)];
    completion := manager.CompleteTask(1);
    assert manager.tasks == map[1 := Task(1, "Buy milk", true, 2)];
    assert |manager.tasks| == 1;
    afterCompletion := manager.ListTasks();
    assert afterCompletion[0].id == 1;
  }

  /** Another run of the interactive program: the same users and task, but
      the ids entered for the transfer and the completion name no task. Both
      calls are reported as not found and the registry is left as it was. */
  method SessionWithUnknownTask() returns (transfer: Result<Notice>, completion: Result<()>,
                                           afterCompletion: seq<TaskRecord>)
    ensures transfer == Err(TaskNotFound)
    ensures completion == Err(TaskNotFound)
    ensures afterCompletion == [TaskRecord(1, "Buy milk", "Alice", false)]
  {
    var manager, missingOwner := Register();
    transfer := manager.TransferTask(5, 1);
    completion := manager.CompleteTask(5);
    assert manager.tasks == map[1 := Task(1, "Buy milk", false, 1)];
    assert manager.users[1].name == "Alice";
    assert |manager.tasks| == 1;
    afterCompletion := manager.ListTasks();
    assert afterCompletion[0].id == 1;
  }
}
