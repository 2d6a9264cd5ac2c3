/** The task service: create, update, soft-delete and list a user's tasks and
    their dependency rows, through the store. Errors are returned as values:
    "not found" for a task outside the caller's reach, every other store
    failure passed through unchanged. */
module TaskServiceModel {
  import opened Schema
  import opened Tables
  import opened PrismaStore

  /** The service's catch block: the store's "record not found" becomes
      NotFound(taskId); anything else is passed on as it came. */
  function Caught(taskId: int, e: StoreFailure): ServiceError
  {
    if e == RecordNotFound then NotFound(taskId) else StoreError(e)
  }

  class TaskService {
    const store: Store
    /** Next-due-date calculator; it lives outside this model, so the
        service is given it. */
    const nextRecurrence: (Recurrence, Date) -> Option<Date>

    constructor (store: Store, nextRecurrence: (Recurrence, Date) -> Option<Date>)
      ensures this.store == store && this.nextRecurrence == nextRecurrence
    {
      this.store := store;
      this.nextRecurrence := nextRecurrence;
    }

    ghost predicate Valid()
      reads store
    {
      store.Valid()
    }

    /** The `data` written on create and on update: the request's fields,
        the caller as owner and the computed next recurrence. */
    function DataFor(input: TaskInput, userId: int): TaskData
    {
      TaskData(input.title, input.priority, input.recurrence, input.dueDate, userId,
               nextRecurrence(input.recurrence, input.dueDate))
    }

    /** addNewTask: create the task; when the request says it depends on
        another, create the dependency row. A failed dependency write leaves
        the new task in place. */
    method AddNewTask(input: TaskInput, userId: int) returns (r: Result<Task, ServiceError>)
      requires Valid()
      modifies store
      ensures Valid()
      ensures !store.online ==> r == Err(StoreError(Unavailable)) && unchanged(store)
      ensures store.online ==>
        var t := NewTask(old(store.nextTaskId), DataFor(input, userId));
        && t.id !in old(store.tasks)
        && store.tasks == old(store.tasks)[t.id := t]
        && store.nextTaskId == t.id + 1
      ensures store.online && !input.isDependent ==>
        && r == Ok(NewTask(old(store.nextTaskId), DataFor(input, userId)))
        && store.deps == old(store.deps) && store.nextDepId == old(store.nextDepId)
      ensures store.online ==>
        var t := NewTask(old(store.nextTaskId), DataFor(input, userId));
        var linked := input.isDependent && input.prerequisite.Some? &&
                      (input.prerequisite.value in old(store.tasks) || input.prerequisite.value == t.id);
        GetMyTasks(userId) == Ok(old(GetMyTasks(userId)).value +
          [TaskWithDependencies(t, if linked then [Dependency(old(store.nextDepId), t.id, input.prerequisite.value)] else [])])
      ensures store.online && input.isDependent && input.prerequisite.None? ==>
        && r == Err(StoreError(InvalidArgument))
        && store.deps == old(store.deps) && store.nextDepId == old(store.nextDepId)
      ensures store.online && input.isDependent && input.prerequisite.Some? ==>
        var id := old(store.nextTaskId);
        var p := input.prerequisite.value;
        if p in old(store.tasks) || p == id then
          && r == Ok(NewTask(id, DataFor(input, userId)))
          && store.deps == old(store.deps)[old(store.nextDepId) := Dependency(old(store.nextDepId), id, p)]
          && store.nextDepId == old(store.nextDepId) + 1
        else
          && r == Err(StoreError(ForeignKeyViolation))
          && store.deps == old(store.deps) && store.nextDepId == old(store.nextDepId)
    {
      var created := store.CreateTask(DataFor(input, userId));
      if created.Err? {
        return Err(StoreError(created.error));
      }
      var newTask := created.value;
      if !input.isDependent {
        ActiveAfterAddNewTask(old(store.tasks), old(store.deps), old(store.nextTaskId), old(store.nextDepId),
                              store.tasks, store.deps, store.nextTaskId, store.nextDepId, userId, newTask, None);
        return Ok(newTask);
      }
      if input.prerequisite.Some? {
        // The new id is fresh, so no row can hold the pair yet.
        var pair := PairRow(store.deps, store.nextDepId, newTask.id, input.prerequisite.value);
        assert pair.None? by {
          assert References(old(store.tasks), store.deps);
          assert newTask.id !in old(store.tasks);
        }
      }
      var dep := store.CreateDependency(newTask.id, input.prerequisite);
      ghost var link := if dep.Ok? then input.prerequisite else None;
      ActiveAfterAddNewTask(old(store.tasks), old(store.deps), old(store.nextTaskId), old(store.nextDepId),
                            store.tasks, store.deps, store.nextTaskId, store.nextDepId, userId, newTask, link);
      return if dep.Ok? then Ok(newTask) else Err(StoreError(dep.error));
    }

    /** updateTask: find the caller's eligible task with its dependency rows,
        overwrite its fields, then either upsert the edge to the requested
        prerequisite or drop the task's first dependency row. A store
        "record not found" becomes NotFound(taskId). */
    method UpdateTask(taskId: int, input: TaskInput, userId: int) returns (r: Result<Task, ServiceError>)
      requires Valid()
      modifies store
      ensures Valid()
      ensures !store.online ==> r == Err(StoreError(Unavailable)) && unchanged(store)
      ensures store.online && !Eligible(old(store.tasks), taskId, userId) ==>
        r == Err(NotFound(taskId)) && unchanged(store)
      ensures store.online && Eligible(old(store.tasks), taskId, userId) ==>
        var t := Patched(old(store.tasks)[taskId], SetFields(DataFor(input, userId)));
        && t.status == old(store.tasks)[taskId].status && t.active
        && store.tasks == old(store.tasks)[taskId := t]
        && store.nextTaskId == old(store.nextTaskId)
        && (r.Ok? ==> r.value == t)
      ensures store.online && Eligible(old(store.tasks), taskId, userId) && input.isDependent &&
              input.prerequisite.None? ==>
        r == Err(StoreError(InvalidArgument))
        && store.deps == old(store.deps) && store.nextDepId == old(store.nextDepId)
      ensures store.online && Eligible(old(store.tasks), taskId, userId) && input.isDependent &&
              input.prerequisite.Some? ==>
        var p := input.prerequisite.value;
        var n := old(store.nextDepId);
        var before := DependenciesOf(old(store.deps), n, taskId);
        if PairRow(old(store.deps), n, taskId, p).Some? then
          && r.Ok?
          && store.deps == old(store.deps) && store.nextDepId == n
        else if p in old(store.tasks) then
          && r.Ok?
          && store.deps == old(store.deps)[n := Dependency(n, taskId, p)]
          && store.nextDepId == n + 1
          && DependenciesOf(store.deps, store.nextDepId, taskId) == before + [Dependency(n, taskId, p)]
        else
          && r == Err(StoreError(ForeignKeyViolation))
          && store.deps == old(store.deps) && store.nextDepId == n
      ensures store.online && Eligible(old(store.tasks), taskId, userId) && input.isDependent &&
              input.prerequisite.Some? && r.Ok? ==>
        PairRow(store.deps, store.nextDepId, taskId, input.prerequisite.value).Some?
      ensures store.online && Eligible(old(store.tasks), taskId, userId) && !input.isDependent ==>
        var before := DependenciesOf(old(store.deps), old(store.nextDepId), taskId);
        && r.Ok?
        && store.nextDepId == old(store.nextDepId)
        && (if before == [] then store.deps == old(store.deps)
            else store.deps == old(store.deps) - {before[0].id})
        && DependenciesOf(store.deps, store.nextDepId, taskId) == (if before == [] then [] else before[1..])
      // The caller's listing, which GetMyTasks returns, has this task's entry replaced in place.
      ensures store.online && Eligible(old(store.tasks), taskId, userId) ==>
        var before := ActiveTasks(old(store.tasks), old(store.deps), old(store.nextTaskId), old(store.nextDepId), userId);
        exists j :: 0 <= j < |before| && before[j].task.id == taskId &&
          ActiveTasks(store.tasks, store.deps, store.nextTaskId, store.nextDepId, userId)
          == before[j := TaskWithDependencies(store.tasks[taskId], DependenciesOf(store.deps, store.nextDepId, taskId))]
    {
      var found := store.FindTask(taskId, userId, true);
      if found.Err? {
        r := Err(Caught(taskId, found.error));
      } else {
        var task := found.value;
        var updated := store.UpdateTaskRow(taskId, SetFields(DataFor(input, userId)));
        match updated {
          case Err(e) =>
            r := Err(Caught(taskId, e));
          case Ok(t) =>
            var failure := Relink(task.task.id, task.dependencies, input);
            r := if failure.None? then Ok(t) else Err(Caught(taskId, failure.value));
            // Only this task's dependency rows changed, so its entry is replaced in place.
            ghost var j := ActiveAfterUpdate(old(store.tasks), old(store.deps), store.nextTaskId, old(store.nextDepId),
                                             store.deps, store.nextDepId, userId, t);
        }
      }
    }

    /** The dependency step of updateTask for the task `taskId`, whose
        dependency rows are `rows`: with `isDependent`, upsert the edge to the
        requested prerequisite; otherwise delete the first of `rows`, if there
        is one. No other task's dependency rows change. */
    method Relink(taskId: int, rows: seq<Dependency>, input: TaskInput) returns (failure: Option<StoreFailure>)
      requires Valid() && store.online && taskId in store.tasks
      requires rows == DependenciesOf(store.deps, store.nextDepId, taskId)
      modifies store
      ensures Valid()
      ensures store.tasks == old(store.tasks) && store.nextTaskId == old(store.nextTaskId)
      ensures SameRowsExcept(old(store.deps), old(store.nextDepId), store.deps, store.nextDepId, taskId)
      ensures input.isDependent && input.prerequisite.None? ==>
        failure == Some(InvalidArgument)
        && store.deps == old(store.deps) && store.nextDepId == old(store.nextDepId)
      ensures input.isDependent && input.prerequisite.Some? ==>
        var p := input.prerequisite.value;
        var n := old(store.nextDepId);
        if PairRow(old(store.deps), n, taskId, p).Some? then
          && failure.None?
          && store.deps == old(store.deps) && store.nextDepId == n
        else if p in old(store.tasks) then
          && failure.None?
          && store.deps == old(store.deps)[n := Dependency(n, taskId, p)]
          && store.nextDepId == n + 1
          && DependenciesOf(store.deps, store.nextDepId, taskId) == rows + [Dependency(n, taskId, p)]
        else
          && failure == Some(ForeignKeyViolation)
          && store.deps == old(store.deps) && store.nextDepId == n
      ensures input.isDependent && input.prerequisite.Some? && failure.None? ==>
        PairRow(store.deps, store.nextDepId, taskId, input.prerequisite.value).Some?
      ensures !input.isDependent ==>
        && failure.None?
        && store.nextDepId == old(store.nextDepId)
        && (if rows == [] then store.deps == old(store.deps)
            else store.deps == old(store.deps) - {rows[0].id})
        && DependenciesOf(store.deps, store.nextDepId, taskId) == (if rows == [] then [] else rows[1..])
    {
      ghost var n := store.nextDepId;
      failure := None;
      if input.isDependent {
        var edge := store.UpsertDependency(taskId, input.prerequisite);
        if edge.Err? {
          failure := Some(edge.error);
        }
        if edge.Ok? && input.prerequisite.Some? && PairRow(old(store.deps), n, taskId, input.prerequisite.value).None? {
          var p := input.prerequisite.value;
          assert DependenciesOf(store.deps, store.nextDepId, taskId) == rows + [Dependency(n, taskId, p)] by {
            DependenciesAfterInsert(old(store.deps), n, Dependency(n, taskId, p), taskId);
          }
          assert PairRow(store.deps, store.nextDepId, taskId, p) == Some(n);
          OthersAfterInsert(old(store.deps), n, Dependency(n, taskId, p));
        } else {
          assert store.deps == old(store.deps) && store.nextDepId == n;
        }
      } else if rows != [] {
        assert DependenciesOf(old(store.deps) - {rows[0].id}, n, taskId) == rows[1..] by {
          DependenciesAfterDelete(old(store.deps), n, taskId, 0);
          DependencyListing(old(store.deps), n, taskId);
        }
        OthersAfterDelete(old(store.deps), n, rows[0].id);
        var unlinked := store.DeleteDependency(rows[0].id);
        match unlinked {
          case Err(e) => failure := Some(e);
          case Ok(_) =>
        }
      }
    }

    /** deleteTask: a soft delete. The caller's eligible task gets its
        `active` flag cleared; nothing else is written. */
    method DeleteTask(taskId: int, userId: int) returns (r: Result<bool, ServiceError>)
      requires Valid()
      modifies store
      ensures Valid()
      ensures !store.online ==> r == Err(StoreError(Unavailable)) && unchanged(store)
      ensures store.online && !Eligible(old(store.tasks), taskId, userId) ==>
        r == Err(NotFound(taskId)) && unchanged(store)
      ensures store.online && Eligible(old(store.tasks), taskId, userId) ==>
        && r == Ok(true)
        && store.tasks == old(store.tasks)[taskId := old(store.tasks)[taskId].(active := false)]
        && store.deps == old(store.deps)
        && store.nextTaskId == old(store.nextTaskId) && store.nextDepId == old(store.nextDepId)
        && !Eligible(store.tasks, taskId, userId)
      ensures store.online && Eligible(old(store.tasks), taskId, userId) ==>
        var before := old(GetMyTasks(userId)).value;
        exists j :: 0 <= j < |before| && before[j].task.id == taskId &&
          GetMyTasks(userId) == Ok(before[..j] + before[j + 1..])
    {
      var found := store.FindTask(taskId, userId, false);
      if found.Err? {
        return Err(Caught(taskId, found.error));
      }
      var updated := store.UpdateTaskRow(taskId, SetActive(false));
      match updated
      case Err(e) => r := Err(Caught(taskId, e));
      case Ok(_) =>
        r := Ok(true);
        ghost var j := ActiveAfterSoftDelete(old(store.tasks), store.deps, store.nextTaskId, store.nextDepId, userId, taskId);
        assert store.tasks == old(store.tasks)[taskId := old(store.tasks)[taskId].(active := false)];
        assert old(GetMyTasks(userId)) == Ok(ActiveTasks(old(store.tasks), store.deps, store.nextTaskId, store.nextDepId, userId));
        assert GetMyTasks(userId) == Ok(ActiveTasks(store.tasks, store.deps, store.nextTaskId, store.nextDepId, userId));
    }

    /** getMyTasks: the caller's active tasks, each with its dependency rows,
        in id order; done tasks are listed too. Nothing is written. */
    function GetMyTasks(userId: int): (r: Result<seq<TaskWithDependencies>, ServiceError>)
      reads store
      requires Valid()
      ensures !store.online ==> r == Err(StoreError(Unavailable))
      ensures store.online ==> r.Ok?
      ensures r.Ok? ==> forall i :: 0 <= i < |r.value| ==>
        && r.value[i].task.id in store.tasks && store.tasks[r.value[i].task.id] == r.value[i].task
        && r.value[i].task.active && r.value[i].task.userId == userId
        && r.value[i].dependencies == DependenciesOf(store.deps, store.nextDepId, r.value[i].task.id)
      ensures r.Ok? ==> forall k :: k in store.tasks && store.tasks[k].active && store.tasks[k].userId == userId ==>
        exists i :: 0 <= i < |r.value| && r.value[i].task.id == k
      ensures r.Ok? ==> forall i, j :: 0 <= i < j < |r.value| ==> r.value[i].task.id < r.value[j].task.id
    {
      ActiveListing(store.tasks, store.deps, store.nextTaskId, store.nextDepId, userId);
      match store.FindActive(userId)
      case Ok(rows) => Ok(rows)
      case Err(e) => Err(StoreError(e))
    }
  }

  /** Deleting the same task twice: the first call clears `active`, which the
      second call's lookup demands, so the second reports NotFound and
      writes nothing. */
  method DeleteTwice(svc: TaskService, taskId: int, userId: int)
    returns (first: Result<bool, ServiceError>, second: Result<bool, ServiceError>)
    requires svc.Valid() && svc.store.online && Eligible(svc.store.tasks, taskId, userId)
    modifies svc.store
    ensures first == Ok(true) && second == Err(NotFound(taskId))
    ensures svc.store.tasks == old(svc.store.tasks)[taskId := old(svc.store.tasks)[taskId].(active := false)]
    ensures svc.store.deps == old(svc.store.deps)
  {
    first := svc.DeleteTask(taskId, userId);
    second := svc.DeleteTask(taskId, userId);
  }

  /** Updating the caller's eligible task as dependent on an existing task
      `p` succeeds, leaves the edge to `p` in place and keeps every row that
      was there before, the task still eligible. */
  method DependOn(svc: TaskService, taskId: int, userId: int, input: TaskInput, p: int)
    returns (r: Result<Task, ServiceError>)
    requires svc.Valid() && svc.store.online && Eligible(svc.store.tasks, taskId, userId)
    requires p in svc.store.tasks
    modifies svc.store
    ensures svc.Valid() && Eligible(svc.store.tasks, taskId, userId)
    ensures svc.store.tasks.Keys == old(svc.store.tasks.Keys)
    ensures r.Ok?
    ensures PairRow(svc.store.deps, svc.store.nextDepId, taskId, p).Some?
    ensures old(svc.store.nextDepId) <= svc.store.nextDepId
    ensures forall k :: k in old(svc.store.deps) ==> k in svc.store.deps && svc.store.deps[k] == old(svc.store.deps)[k]
  {
    ghost var n := svc.store.nextDepId;
    r := svc.UpdateTask(taskId, input.(isDependent := true, prerequisite := Some(p)), userId);
    if PairRow(old(svc.store.deps), n, taskId, p).None? {
      assert svc.store.deps == old(svc.store.deps)[n := Dependency(n, taskId, p)];
      assert n !in old(svc.store.deps);
    } else {
      assert svc.store.deps == old(svc.store.deps);
    }
  }

  /** Re-pointing a dependent task from prerequisite `p` to `q` keeps the
      edge to `p`: the upsert is keyed by the (dependent, prerequisite) pair,
      so the task ends up with both edges. */
  method RetargetKeepsOldEdge(svc: TaskService, taskId: int, userId: int, input: TaskInput, p: int, q: int)
    returns (first: Result<Task, ServiceError>, second: Result<Task, ServiceError>)
    requires svc.Valid() && svc.store.online && Eligible(svc.store.tasks, taskId, userId)
    requires p in svc.store.tasks && q in svc.store.tasks && p != q
    modifies svc.store
    ensures svc.Valid()
    ensures first.Ok? && second.Ok?
    ensures PairRow(svc.store.deps, svc.store.nextDepId, taskId, p).Some?
    ensures PairRow(svc.store.deps, svc.store.nextDepId, taskId, q).Some?
  {
    first := DependOn(svc, taskId, userId, input, p);
    ghost var k := PairRow(svc.store.deps, svc.store.nextDepId, taskId, p).value;
    second := DependOn(svc, taskId, userId, input, q);
    assert k in svc.store.deps && 1 <= k < svc.store.nextDepId;
  }
}
