/** An in-memory stand-in for the database client the task service calls:
    the task table, the dependency table and their id sequences. Each
    client call the service makes is a method here, except the read-only
    listing, which is a function. */
module PrismaStore {
  import opened Schema
  import opened Tables

  class Store {
    var tasks: map<int, Task>
    var deps: map<int, Dependency>
    var nextTaskId: int
    var nextDepId: int
    /** Whether the database can be reached; when it cannot, every call fails. */
    const online: bool

    ghost predicate Valid()
      reads this
    {
      TablesValid(tasks, deps, nextTaskId, nextDepId)
    }

    constructor (online: bool)
      ensures Valid() && this.online == online
      ensures tasks == map[] && deps == map[] && nextTaskId == 1 && nextDepId == 1
    {
      this.online := online;
      tasks, deps := map[], map[];
      nextTaskId, nextDepId := 1, 1;
    }

    /** `task.create`: a new row under the next id, not done and active. */
    method CreateTask(data: TaskData) returns (r: Result<Task, StoreFailure>)
      requires Valid()
      modifies this
      ensures Valid()
      ensures !online ==> r == Err(Unavailable) && unchanged(this)
      ensures online ==>
        && old(nextTaskId) !in old(tasks)
        && r == Ok(NewTask(old(nextTaskId), data))
        && tasks == old(tasks)[old(nextTaskId) := NewTask(old(nextTaskId), data)]
        && nextTaskId == old(nextTaskId) + 1
        && deps == old(deps) && nextDepId == old(nextDepId)
    {
      if !online {
        return Err(Unavailable);
      }
      var t := NewTask(nextTaskId, data);
      tasks := tasks[t.id := t];
      nextTaskId := nextTaskId + 1;
      r := Ok(t);
    }

    /** `task.findUniqueOrThrow` with the filter {id, active: true, userId,
        status: NOT_DONE}, optionally including the task's dependency rows. */
    method FindTask(id: int, userId: int, withDependencies: bool) returns (r: Result<TaskWithDependencies, StoreFailure>)
      requires Valid()
      ensures !online ==> r == Err(Unavailable)
      ensures online && !Eligible(tasks, id, userId) ==> r == Err(RecordNotFound)
      ensures online && Eligible(tasks, id, userId) ==>
        r == Ok(TaskWithDependencies(tasks[id], if withDependencies then DependenciesOf(deps, nextDepId, id) else []))
    {
      if !online {
        return Err(Unavailable);
      }
      if !Eligible(tasks, id, userId) {
        return Err(RecordNotFound);
      }
      var rows := if withDependencies then DependenciesOf(deps, nextDepId, id) else [];
      r := Ok(TaskWithDependencies(tasks[id], rows));
    }

    /** `task.update` by id. */
    method UpdateTaskRow(id: int, patch: TaskPatch) returns (r: Result<Task, StoreFailure>)
      requires Valid()
      modifies this
      ensures Valid()
      ensures !online ==> r == Err(Unavailable) && unchanged(this)
      ensures online && id !in old(tasks) ==> r == Err(RecordNotFound) && unchanged(this)
      ensures online && id in old(tasks) ==>
        && r == Ok(Patched(old(tasks)[id], patch))
        && tasks == old(tasks)[id := Patched(old(tasks)[id], patch)]
        && deps == old(deps) && nextTaskId == old(nextTaskId) && nextDepId == old(nextDepId)
    {
      if !online {
        return Err(Unavailable);
      }
      if id !in tasks {
        return Err(RecordNotFound);
      }
      var t := Patched(tasks[id], patch);
      tasks := tasks[id := t];
      r := Ok(t);
    }

    /** `taskDependency.create`. An undefined prerequisite is rejected before
        the database is asked; the database then enforces the unique pair and
        both foreign keys. */
    method CreateDependency(dependentId: int, prerequisiteId: Option<int>) returns (r: Result<Dependency, StoreFailure>)
      requires Valid()
      modifies this
      ensures Valid()
      ensures !online ==> r == Err(Unavailable) && unchanged(this)
      ensures online && prerequisiteId.None? ==> r == Err(InvalidArgument) && unchanged(this)
      ensures online && prerequisiteId.Some? ==>
        var p := prerequisiteId.value;
        if PairRow(old(deps), old(nextDepId), dependentId, p).Some? then
          r == Err(UniqueViolation) && unchanged(this)
        else if dependentId !in old(tasks) || p !in old(tasks) then
          r == Err(ForeignKeyViolation) && unchanged(this)
        else
          && old(nextDepId) !in old(deps)
          && r == Ok(Dependency(old(nextDepId), dependentId, p))
          && deps == old(deps)[old(nextDepId) := Dependency(old(nextDepId), dependentId, p)]
          && nextDepId == old(nextDepId) + 1
          && tasks == old(tasks) && nextTaskId == old(nextTaskId)
    {
      if !online {
        return Err(Unavailable);
      }
      if prerequisiteId.None? {
        return Err(InvalidArgument);
      }
      var p := prerequisiteId.value;
      if PairRow(deps, nextDepId, dependentId, p).Some? {
        return Err(UniqueViolation);
      }
      if dependentId !in tasks || p !in tasks {
        return Err(ForeignKeyViolation);
      }
      var row := Dependency(nextDepId, dependentId, p);
      deps := deps[row.id := row];
      nextDepId := nextDepId + 1;
      r := Ok(row);
    }

    /** `taskDependency.upsert` keyed by the pair (dependentId, prerequisiteId):
        an existing row gets `prerequisiteId` written again, which leaves it as
        it was; otherwise a row is created as by `CreateDependency`. */
    method UpsertDependency(dependentId: int, prerequisiteId: Option<int>) returns (r: Result<Dependency, StoreFailure>)
      requires Valid()
      modifies this
      ensures Valid()
      ensures !online ==> r == Err(Unavailable) && unchanged(this)
      ensures online && prerequisiteId.None? ==> r == Err(InvalidArgument) && unchanged(this)
      ensures online && prerequisiteId.Some? ==>
        var p := prerequisiteId.value;
        match PairRow(old(deps), old(nextDepId), dependentId, p)
        case Some(k) =>
          r == Ok(old(deps)[k]) && unchanged(this)
        case None =>
          if dependentId !in old(tasks) || p !in old(tasks) then
            r == Err(ForeignKeyViolation) && unchanged(this)
          else
            && old(nextDepId) !in old(deps)
            && r == Ok(Dependency(old(nextDepId), dependentId, p))
            && deps == old(deps)[old(nextDepId) := Dependency(old(nextDepId), dependentId, p)]
            && nextDepId == old(nextDepId) + 1
            && tasks == old(tasks) && nextTaskId == old(nextTaskId)
    {
      if !online {
        return Err(Unavailable);
      }
      if prerequisiteId.None? {
        return Err(InvalidArgument);
      }
      var p := prerequisiteId.value;
      match PairRow(deps, nextDepId, dependentId, p)
      case Some(k) =>
        var row := deps[k].(prerequisiteId := p);
        assert row == deps[k];
        deps := deps[k := row];
        assert deps == old(deps);
        r := Ok(row);
      case None =>
        r := CreateDependency(dependentId, prerequisiteId);
    }

    /** `taskDependency.delete` by row id. */
    method DeleteDependency(id: int) returns (r: Result<Dependency, StoreFailure>)
      requires Valid()
      modifies this
      ensures Valid()
      ensures !online ==> r == Err(Unavailable) && unchanged(this)
      ensures online && id !in old(deps) ==> r == Err(RecordNotFound) && unchanged(this)
      ensures online && id in old(deps) ==>
        && r == Ok(old(deps)[id])
        && deps == old(deps) - {id}
        && tasks == old(tasks) && nextTaskId == old(nextTaskId) && nextDepId == old(nextDepId)
    {
      if !online {
        return Err(Unavailable);
      }
      if id !in deps {
        return Err(RecordNotFound);
      }
      r := Ok(deps[id]);
      deps := deps - {id};
    }

    /** `task.findMany` with the filter {active: true, userId}, including each
        task's dependency rows. */
    function FindActive(userId: int): (r: Result<seq<TaskWithDependencies>, StoreFailure>)
      reads this
      requires Valid()
      ensures !online ==> r == Err(Unavailable)
      ensures online ==> r == Ok(ActiveTasks(tasks, deps, nextTaskId, nextDepId, userId))
    {
      if online then Ok(ActiveTasks(tasks, deps, nextTaskId, nextDepId, userId)) else Err(Unavailable)
    }
  }
}
