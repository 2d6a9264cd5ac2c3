/** The records of the task manager: tasks, dependency rows, the request body
    of the create/update endpoints, and the errors the service reports. */
module Schema {

  datatype Option<+T> = None | Some(value: T)

  datatype Result<+R, +E> = Ok(value: R) | Err(error: E)

  /** A point in time (milliseconds since the epoch); only equality matters here. */
  type Date = int

  datatype Priority = Low | Medium | High

  datatype Recurrence = NoRecurrence | Daily | Weekly | Monthly

  datatype TaskStatus = NotDone | Done

  /** A row of the task table. `active` is the soft-delete flag. */
  datatype Task = Task(
    id: int,
    title: string,
    status: TaskStatus,
    dueDate: Date,
    priority: Priority,
    recurrence: Recurrence,
    nextRecurrence: Option<Date>,
    active: bool,
    userId: int)

  /** A row of the dependency table: `dependentId` waits for `prerequisiteId`. */
  datatype Dependency = Dependency(id: int, dependentId: int, prerequisiteId: int)

  /** The `data` object the service hands to the store on create and on update. */
  datatype TaskData = TaskData(
    title: string,
    priority: Priority,
    recurrence: Recurrence,
    dueDate: Date,
    userId: int,
    nextRecurrence: Option<Date>)

  /** The two shapes of `data` the service passes to the store's task update. */
  datatype TaskPatch = SetFields(data: TaskData) | SetActive(active: bool)

  /** The request body shared by the create and the update endpoints. */
  datatype TaskInput = TaskInput(
    title: string,
    priority: Priority,
    recurrence: Recurrence,
    dueDate: Date,
    isDependent: bool,
    prerequisite: Option<int>)

  /** A task together with the dependency rows in which it is the dependent. */
  datatype TaskWithDependencies = TaskWithDependencies(task: Task, dependencies: seq<Dependency>)

  /** Failures the store reports, with the store's error codes where it has one. */
  datatype StoreFailure =
    | RecordNotFound       // P2025: no row matches the filter of a find-or-throw, update or delete
    | UniqueViolation      // P2002: a second dependency row with the same (dependentId, prerequisiteId)
    | ForeignKeyViolation  // P2003: a dependency row naming a task that does not exist
    | InvalidArgument      // a required field (the prerequisite id) left undefined
    | Unavailable          // the database cannot be reached

  /** What the service reports to its caller: "not found" for a task the caller
      may not touch, every other store failure passed through as it came. */
  datatype ServiceError = NotFound(taskId: int) | StoreError(cause: StoreFailure)

  /** A freshly created row: not done, active. Updating it with the same
      `data` it was created from changes nothing. */
  function NewTask(id: int, data: TaskData): (t: Task)
    ensures t.id == id && t.status == NotDone && t.active
    ensures Patched(t, SetFields(data)) == t
  {
    Task(id, data.title, NotDone, data.dueDate, data.priority, data.recurrence,
         data.nextRecurrence, true, data.userId)
  }

  /** The row after the store applied an update patch to it. No patch touches
      the id or the status; setting the fields keeps the active flag, and
      setting the active flag keeps everything else. */
  function Patched(t: Task, patch: TaskPatch): (r: Task)
    ensures r.id == t.id && r.status == t.status
    ensures patch.SetFields? ==> r.active == t.active && r.userId == patch.data.userId
    ensures patch.SetActive? ==> r.active == patch.active && r.(active := t.active) == t
  {
    match patch
    case SetFields(d) =>
      t.(title := d.title, priority := d.priority, recurrence := d.recurrence,
         dueDate := d.dueDate, userId := d.userId, nextRecurrence := d.nextRecurrence)
    case SetActive(a) => t.(active := a)
  }
}
