# Task service of the task-manager backend, in Dafny

This project models the task service of a task-management backend. A user creates tasks, updates them, soft-deletes them and lists them. A task may wait for another task through a dependency row (dependent → prerequisite).

The service talks to its database through an ORM client. Here that client is `PrismaStore.Store`, an in-memory class holding:

- the task table, a `map<int, Task>` keyed by id;
- the dependency table, a `map<int, Dependency>` keyed by row id;
- the two id sequences.

It has one member per client call the service makes. The writes and the task lookup are methods; the read-only listing is the function `FindActive`:

- `task.create`;
- `task.findUniqueOrThrow`;
- `task.update`;
- `taskDependency.create`, `taskDependency.upsert` and `taskDependency.delete`;
- `task.findMany` (`FindActive`).

The store keeps what the database guarantees (`Tables.TablesValid`):

- primary keys match the rows;
- every key lies below its sequence;
- the pair (dependentId, prerequisiteId) is unique;
- both ends of a dependency row name an existing task.

`TaskServiceModel.TaskService` holds the four service operations. The three that write, `AddNewTask`, `UpdateTask` and `DeleteTask`, are imperative methods over that store. The read-only `GetMyTasks` is a function of the store's state.

- Thrown exceptions become a `Result`.
- The catch blocks of update and delete (`Caught`) turn the store's "record not found" (P2025) into `NotFound(taskId)`. Every other store failure passes through as `StoreError(cause)`.
- The next-recurrence calculator is a function-valued field of the service. Its definition is not part of this model.

The pure side lives in `Tables`:

- `IdsInOrder` is the ids of a filtered query in primary-key order.
- `DependenciesOf` is the rows attached by `include: { dependencies: true }`.
- `ActiveTasks` is the listing of `getMyTasks`.
- `PairRow` is a lookup through the unique (dependentId, prerequisiteId) index.

Lemmas state what each kind of write does to these queries. The inductions are in the lemmas about `IdsInOrder`; the lemmas about the listing and the dependency rows are built on them.

Where the code differs from the data model it was meant to keep, the model follows the code:

- **More than one edge per task.** The intended data model has at most one dependency row per task. The code does not keep that. The upsert at src/task/task.service.ts:82-96 is keyed by the (dependent, prerequisite) pair. Re-pointing a task from prerequisite `p` to `q` therefore adds a second row and leaves the first in place. `RetargetKeepsOldEdge` proves this. The model's invariant is only the unique pair.
- **Only the first row is removed.** When the update clears `isDependent`, the code deletes only `dependencies[0]` (src/task/task.service.ts:98-104), not every edge of the task. `UpdateTask` states exactly that: the first row in row-id order goes and the rest remain.
- **A failed dependency write leaves the task written.** The task row is written before the dependency row. In `addNewTask` the new task stays created when the dependency create fails. In `updateTask` the field update stays when the upsert fails. Both methods state this.

## Model

| member | source | states |
|---|---|---|
| Schema.NewTask | src/task/task.service.ts:19-28 | a created row carries the new id, is NOT_DONE and active; updating it with the data it was created from changes nothing |
| Schema.Patched | src/task/task.service.ts:67-79 | no update touches the id or the status; the field update keeps the active flag and sets the owner; the soft-delete update sets the active flag and keeps every other field |
| Tables.Eligible | src/task/task.service.ts:51-57 | the find-or-throw filter: the task exists, is active, is owned by the caller and is NOT_DONE (a definition; FindTask states its use) |
| Tables.DependenciesOf | src/task/task.service.ts:58-60 | the rows attached by `include: { dependencies: true }` (a definition; DependencyListing proves what it holds) |
| Tables.ActiveTasks | src/task/task.service.ts:150-158 | the listing of `task.findMany` with `{active: true, userId}` (a definition; ActiveListing proves what it holds) |
| Tables.IdsInOrder | src/task/task.service.ts:150-158 | the ids a filtered query returns: strictly increasing, each a stored row in the range that passes the filter, and every such row present |
| Tables.IdsNone | src/task/task.service.ts:150-158 | a filter no row in range passes gives an empty answer |
| Tables.IdsAfterAppend | src/task/task.service.ts:19-28 | a row stored under the next id shows up last in a query exactly when it passes the filter; the earlier answer is a prefix |
| Tables.IdsFrame | src/task/task.service.ts:67-79 | a write that changes no row's membership in the filter leaves the query's answer unchanged |
| Tables.IdsAfterDrop | src/task/task.service.ts:129-136 | a row leaving the filter, the others staying, removes exactly its own slot from the answer and keeps the order of the rest |
| Tables.PairRow | src/task/task.service.ts:82-96 | the lookup through the unique (dependentId, prerequisiteId) index finds the one row holding the pair, and finds it whenever such a row exists |
| Tables.DependencyListing | src/task/task.service.ts:58-60 | the rows attached to a task are stored rows whose dependent is that task; every such row is attached; they are in ascending row id |
| Tables.NoDependenciesOfMissing | src/task/task.service.ts:19-36 | with both foreign keys in force, an id not in the task table, such as a just-allocated one, has no dependency rows |
| Tables.ActiveListing | src/task/task.service.ts:149-161 | the listing for a user holds exactly the active tasks that user owns, each once, in id order, each the stored row with its own dependency rows |
| Tables.DependenciesAfterInsert | src/task/task.service.ts:31-36 | a dependency row created under the next row id is appended to its dependent's rows; every other task's rows are unchanged |
| Tables.DependenciesAfterDelete | src/task/task.service.ts:98-104 | deleting a task's j-th dependency row removes exactly that row from its list and keeps the others in order |
| Tables.DependenciesAfterDeleteOther | src/task/task.service.ts:98-104 | deleting a row of another task leaves this task's rows unchanged |
| Tables.OthersAfterInsert | src/task/task.service.ts:82-96 | creating a dependency row under the next row id leaves the rows of every task other than its dependent unchanged |
| Tables.OthersAfterDelete | src/task/task.service.ts:98-104 | deleting a dependency row leaves the rows of every task other than its dependent unchanged |
| Tables.ActiveAfterCreateLinked | src/task/task.service.ts:19-36 | a task created together with a dependency row from it is appended to the caller's listing with that row as its only dependency; the rest of the listing, dependency rows included, is unchanged |
| Tables.ActiveAfterCreate | src/task/task.service.ts:19-28 | a new task owned by the caller and active is appended to the caller's listing; the rest of the listing is unchanged |
| Tables.ActiveAfterAddNewTask | src/task/task.service.ts:19-37 | after the create, and the dependency create when it succeeded, the caller's listing is the earlier one with the new task appended, carrying the new row or no rows |
| Tables.OwnedIdsAfterSoftDelete | src/task/task.service.ts:129-136 | clearing `active` on an eligible task removes exactly its id from its owner's ids |
| Tables.ActiveAfterSoftDelete | src/task/task.service.ts:129-136 | clearing `active` on an eligible task removes exactly its entry from its owner's listing |
| Tables.OwnedIdsAfterEdit | src/task/task.service.ts:67-79 | rewriting an eligible task that stays active and owned keeps its owner's ids as they were |
| Tables.ActiveAfterUpdate | src/task/task.service.ts:67-104 | rewriting an eligible task that stays active and owned, while no other task's dependency rows change, replaces its entry in place with the new row and its new dependency rows; every other entry is unchanged |
| PrismaStore.Store.CreateTask | src/task/task.service.ts:19-28 | a new row under a fresh id, not done and active, with the given fields; no other row or table changes |
| PrismaStore.Store.FindTask | src/task/task.service.ts:51-61 | the row is returned, with its dependency rows on request, exactly when it exists, is active, is owned by the caller and is not done; otherwise "record not found"; nothing is written |
| PrismaStore.Store.UpdateTaskRow | src/task/task.service.ts:67-79 | only the row with that id is rewritten, by the patch; a missing id is "record not found" and writes nothing |
| PrismaStore.Store.CreateDependency | src/task/task.service.ts:31-36 | an undefined prerequisite, a duplicate pair or a missing task is rejected without a write; otherwise exactly one row is added under the next row id |
| PrismaStore.Store.UpsertDependency | src/task/task.service.ts:82-96 | an existing (dependent, prerequisite) pair leaves the table as it was and returns that row; otherwise the row is created as by CreateDependency |
| PrismaStore.Store.DeleteDependency | src/task/task.service.ts:99-103 | exactly the row with that id is removed; a missing id is "record not found" and writes nothing |
| PrismaStore.Store.FindActive | src/task/task.service.ts:150-158 | the listing of the user's active tasks with their dependency rows; an unreachable database fails |
| TaskServiceModel.Caught | src/task/task.service.ts:108-114 | the catch block's mapping of a store failure: "record not found" becomes NotFound(taskId), anything else passes through (a definition; UpdateTask and DeleteTask state its use) |
| TaskServiceModel.TaskService.DataFor | src/task/task.service.ts:15-27 | the `data` object written on create and update (a definition; AddNewTask and UpdateTask state its use through NewTask and Patched) |
| TaskServiceModel.TaskService.AddNewTask | src/task/task.service.ts:13-43 | exactly one new task under a fresh id, with the input's fields, the caller as owner and the computed next recurrence; a dependency row (new task → prerequisite) only when isDependent; the created task returned and appended to the caller's listing, carrying the new dependency row when it was written and no rows otherwise; a failed dependency write reported with the task kept |
| TaskServiceModel.TaskService.UpdateTask | src/task/task.service.ts:45-116 | an ineligible task gives NotFound(taskId) with no write; otherwise only that task's fields are overwritten, its status and active flag kept; with isDependent the (task, prerequisite) edge is present afterwards, added only when missing, and no other edge is removed; without it only the first dependency row in row-id order is deleted; in the caller's listing the task's entry is replaced in place by the new row with its new dependency rows |
| TaskServiceModel.TaskService.Relink | src/task/task.service.ts:81-104 | the dependency step of the update: the pair-keyed upsert or the deletion of the first row, as UpdateTask states them, and no other task's dependency rows change |
| TaskServiceModel.TaskService.DeleteTask | src/task/task.service.ts:118-147 | an ineligible task gives NotFound(taskId) with no write; otherwise only its active flag is cleared, true is returned, the task is no longer eligible and its entry leaves the caller's listing |
| TaskServiceModel.TaskService.GetMyTasks | src/task/task.service.ts:149-161 | exactly the caller's active tasks, done ones included, each with its dependency rows, in id order; nothing is written |
| TaskServiceModel.DeleteTwice | src/task/task.service.ts:118-137 | deleting the same task twice: the first call returns true, the second reports NotFound and writes nothing |
| TaskServiceModel.DependOn | src/task/task.service.ts:81-96 | updating an eligible task as dependent on an existing task succeeds, leaves that edge present, keeps every earlier row and keeps the task eligible |
| TaskServiceModel.RetargetKeepsOldEdge | src/task/task.service.ts:81-96 | updating a task with prerequisite p and then with q leaves both edges in the dependency table |

## Left out

- HTTP layer: the controller and its error-to-status mapping are not part of this model. Neither are authentication, user registration and token issuance.
- Next recurrence: how the next recurrence date is calculated is not part of this model. The service receives the calculator as a function and uses its result unchanged.
- Timestamps and enum values: `createdAt` and `updatedAt` are left out, because no operation reads them. Dates are plain integers, since only equality matters. The database schema is not part of this model, so the enums are partly assumed. The tests show the priorities HIGH and MEDIUM (src/task/task.service.spec.ts:48, 118), the recurrences DAILY and WEEKLY (49, 119) and the status NOT_DONE (59). `Low`, `NoRecurrence`, `Monthly` and `Done` are assumed. Only whether a status is `NotDone` matters to the model; the other values are carried unchanged.
- Schema assumptions: the database schema is not part of this model. Foreign keys on both ends of a dependency row are assumed. An undefined prerequisite id is assumed to be rejected as an invalid argument before any write. The defaults of a created task, status NOT_DONE and active true (`Schema.NewTask`), are assumed from the test fixture at src/task/task.service.spec.ts:54-61.
- Row order: neither the listing of `task.findMany` (src/task/task.service.ts:150-158) nor `include: { dependencies: true }` gives an `orderBy`. Both are taken to come back in ascending primary key. So the "in id order" of `GetMyTasks` and `ActiveListing`, and the "first row" that `UpdateTask` deletes, rest on that assumption. The database itself promises no order.
- Concurrency and crashes: concurrent requests, interleaving and crashes between the two writes of an operation are left out. Each operation runs to completion. A store failure after the first write is modelled; a crash is not.
- Database availability: an unreachable database is modelled by the store's `online` flag. Every call then fails as `Unavailable`. Other transient failures, such as timeouts, are not distinguished.
- Store.UpsertDependency: the `update` branch rewrites `prerequisiteId` with the value it already has. It is modelled as leaving the row unchanged, with no `updatedAt` bump.
