/** The two tables of the store as values, the queries the service runs over
    them, and what those queries return after each kind of write. */
module Tables {
  import opened Schema

  predicate StrictlyIncreasing(s: seq<int>)
  {
    forall i, j :: 0 <= i < j < |s| ==> s[i] < s[j]
  }

  /** The keys in [lo, hi) of `m` whose rows satisfy `keep`, in ascending
      order: the rows a filtered query returns, in primary-key order. */
  function IdsInOrder<T>(m: map<int, T>, keep: T -> bool, lo: int, hi: int): (ids: seq<int>)
    decreases hi - lo
    ensures StrictlyIncreasing(ids)
    ensures forall i :: 0 <= i < |ids| ==> lo <= ids[i] < hi && ids[i] in m && keep(m[ids[i]])
    ensures forall k {:trigger k in ids} :: lo <= k < hi && k in m && keep(m[k]) ==> k in ids
  {
    if lo >= hi then []
    else
      var rest := IdsInOrder(m, keep, lo + 1, hi);
      if lo in m && keep(m[lo]) then [lo] + rest else rest
  }

  /** A range with no row satisfying `keep` gives an empty answer. */
  lemma {:induction false} IdsNone<T>(m: map<int, T>, keep: T -> bool, lo: int, hi: int)
    requires forall k :: lo <= k < hi && k in m ==> !keep(m[k])
    ensures IdsInOrder(m, keep, lo, hi) == []
    decreases hi - lo
  {
    if lo < hi {
      IdsNone(m, keep, lo + 1, hi);
    }
  }

  /** A row stored under `hi`, just above the range, shows up last. */
  lemma {:induction false} IdsAfterAppend<T>(m: map<int, T>, keep: T -> bool, lo: int, hi: int, v: T)
    requires lo <= hi
    ensures IdsInOrder(m[hi := v], keep, lo, hi + 1)
         == IdsInOrder(m, keep, lo, hi) + (if keep(v) then [hi] else [])
    decreases hi - lo
  {
    if lo < hi {
      IdsAfterAppend(m, keep, lo + 1, hi, v);
    }
  }

  /** Rows that keep their presence in the query keep the query's answer. */
  lemma {:induction false} IdsFrame<T>(m: map<int, T>, m': map<int, T>, keep: T -> bool, lo: int, hi: int)
    requires forall k :: lo <= k < hi ==> (k in m && keep(m[k]) <==> k in m' && keep(m'[k]))
    ensures IdsInOrder(m, keep, lo, hi) == IdsInOrder(m', keep, lo, hi)
    decreases hi - lo
  {
    if lo < hi {
      IdsFrame(m, m', keep, lo + 1, hi);
    }
  }

  /** A row that leaves the query, all others staying, leaves exactly its slot. */
  lemma {:induction false} IdsAfterDrop<T>(m: map<int, T>, m': map<int, T>, keep: T -> bool, lo: int, hi: int,
                                           j: int, k: int)
    requires 0 <= j < |IdsInOrder(m, keep, lo, hi)| && IdsInOrder(m, keep, lo, hi)[j] == k
    requires !(k in m' && keep(m'[k]))
    requires forall x :: lo <= x < hi && x != k ==> (x in m && keep(m[x]) <==> x in m' && keep(m'[x]))
    ensures IdsInOrder(m', keep, lo, hi)
         == IdsInOrder(m, keep, lo, hi)[..j] + IdsInOrder(m, keep, lo, hi)[j + 1..]
    decreases hi - lo
  {
    var ids := IdsInOrder(m, keep, lo, hi);
    var rest := IdsInOrder(m, keep, lo + 1, hi);
    var ids' := IdsInOrder(m', keep, lo, hi);
    var rest' := IdsInOrder(m', keep, lo + 1, hi);
    if lo == k {
      assert ids == [lo] + rest && j == 0;
      DropFirst(m, m', keep, lo, hi);
    } else if lo in m && keep(m[lo]) {
      DropBelow(m, m', keep, lo, hi, j, k);
    } else {
      assert !(lo in m' && keep(m'[lo]));
      assert ids == rest && ids' == rest';
      IdsAfterDrop(m, m', keep, lo + 1, hi, j, k);
    }
  }

  /** The step of IdsAfterDrop where the first row of the range leaves. */
  lemma DropFirst<T>(m: map<int, T>, m': map<int, T>, keep: T -> bool, lo: int, hi: int)
    requires lo < hi && lo in m && keep(m[lo]) && !(lo in m' && keep(m'[lo]))
    requires forall x :: lo < x < hi ==> (x in m && keep(m[x]) <==> x in m' && keep(m'[x]))
    ensures IdsInOrder(m', keep, lo, hi) == IdsInOrder(m, keep, lo, hi)[..0] + IdsInOrder(m, keep, lo, hi)[1..]
  {
    var rest := IdsInOrder(m, keep, lo + 1, hi);
    assert IdsInOrder(m, keep, lo, hi) == [lo] + rest;
    assert IdsInOrder(m', keep, lo, hi) == IdsInOrder(m', keep, lo + 1, hi);
    IdsFrame(m, m', keep, lo + 1, hi);
    assert ([lo] + rest)[..0] + ([lo] + rest)[1..] == rest;
  }

  /** The step of IdsAfterDrop where the first row of the range stays. */
  lemma {:induction false} DropBelow<T>(m: map<int, T>, m': map<int, T>, keep: T -> bool, lo: int, hi: int,
                                        j: int, k: int)
    requires lo < k && lo in m && keep(m[lo])
    requires 0 <= j < |IdsInOrder(m, keep, lo, hi)| && IdsInOrder(m, keep, lo, hi)[j] == k
    requires !(k in m' && keep(m'[k]))
    requires forall x :: lo <= x < hi && x != k ==> (x in m && keep(m[x]) <==> x in m' && keep(m'[x]))
    ensures IdsInOrder(m', keep, lo, hi)
         == IdsInOrder(m, keep, lo, hi)[..j] + IdsInOrder(m, keep, lo, hi)[j + 1..]
    decreases hi - lo, 0
  {
    var ids := IdsInOrder(m, keep, lo, hi);
    var rest := IdsInOrder(m, keep, lo + 1, hi);
    assert lo in m' && keep(m'[lo]);
    var rest' := IdsInOrder(m', keep, lo + 1, hi);
    assert ids == [lo] + rest;
    assert IdsInOrder(m', keep, lo, hi) == [lo] + rest';
    assert j != 0 && rest[j - 1] == k;
    assert rest' == rest[..j - 1] + rest[j..] by {
      assert forall x :: lo + 1 <= x < hi && x != k ==> (x in m && keep(m[x]) <==> x in m' && keep(m'[x]));
      IdsAfterDrop(m, m', keep, lo + 1, hi, j - 1, k);
    }
    ConsDrop(lo, rest, j);
  }

  lemma ConsDrop(x: int, s: seq<int>, j: int)
    requires 1 <= j <= |s|
    ensures ([x] + s)[..j] + ([x] + s)[j + 1..] == [x] + (s[..j - 1] + s[j..])
  {
    assert ([x] + s)[..j] == [x] + s[..j - 1];
    assert ([x] + s)[j + 1..] == s[j..];
  }

  /** The primary-key invariant of the task table. */
  predicate TasksKeyed(tasks: map<int, Task>)
  {
    forall k :: k in tasks ==> tasks[k].id == k
  }

  /** The primary-key invariant of the dependency table. */
  predicate DepsKeyed(deps: map<int, Dependency>)
  {
    forall k :: k in deps ==> deps[k].id == k
  }

  /** Every key was handed out by a counter now standing at `bound`. */
  predicate KeysBelow<T>(m: map<int, T>, bound: int)
  {
    forall k :: k in m ==> 1 <= k < bound
  }

  /** The unique index on (dependentId, prerequisiteId). */
  predicate UniquePairs(deps: map<int, Dependency>)
  {
    forall a, b ::
      (a in deps && b in deps && deps[a].dependentId == deps[b].dependentId &&
       deps[a].prerequisiteId == deps[b].prerequisiteId) ==> a == b
  }

  /** Both ends of every dependency row name a task (foreign keys). */
  predicate References(tasks: map<int, Task>, deps: map<int, Dependency>)
  {
    forall k :: k in deps ==> deps[k].dependentId in tasks && deps[k].prerequisiteId in tasks
  }

  /** What the database guarantees of its two tables and their id sequences. */
  predicate TablesValid(tasks: map<int, Task>, deps: map<int, Dependency>, nextTaskId: int, nextDepId: int)
  {
    && 1 <= nextTaskId && 1 <= nextDepId
    && TasksKeyed(tasks) && KeysBelow(tasks, nextTaskId)
    && DepsKeyed(deps) && KeysBelow(deps, nextDepId)
    && UniquePairs(deps) && References(tasks, deps)
  }

  /** The filter of the service's find-or-throw: the task exists, is active,
      belongs to the caller and is not done. */
  predicate Eligible(tasks: map<int, Task>, id: int, userId: int)
  {
    id in tasks && tasks[id].active && tasks[id].userId == userId && tasks[id].status == NotDone
  }

  function DependentOn(taskId: int): Dependency -> bool
  {
    (r: Dependency) => r.dependentId == taskId
  }

  function LinksPair(dependentId: int, prerequisiteId: int): Dependency -> bool
  {
    (r: Dependency) => r.dependentId == dependentId && r.prerequisiteId == prerequisiteId
  }

  function ActiveOwnedBy(userId: int): Task -> bool
  {
    (t: Task) => t.active && t.userId == userId
  }

  function Lookup<T>(m: map<int, T>, ids: seq<int>): seq<T>
    requires forall i :: 0 <= i < |ids| ==> ids[i] in m
  {
    seq(|ids|, i requires 0 <= i < |ids| => m[ids[i]])
  }

  /** The id of the row that holds the pair (dependentId, prerequisiteId),
      looked up through the unique index. */
  function PairRow(deps: map<int, Dependency>, bound: int, dependentId: int, prerequisiteId: int): (r: Option<int>)
    requires UniquePairs(deps)
    ensures r.Some? ==> r.value in deps && deps[r.value].dependentId == dependentId &&
                        deps[r.value].prerequisiteId == prerequisiteId
    ensures forall k ::
      (1 <= k < bound && k in deps && deps[k].dependentId == dependentId &&
       deps[k].prerequisiteId == prerequisiteId) ==> r == Some(k)
  {
    var ids := IdsInOrder(deps, LinksPair(dependentId, prerequisiteId), 1, bound);
    assert forall k ::
      (1 <= k < bound && k in deps && deps[k].dependentId == dependentId &&
       deps[k].prerequisiteId == prerequisiteId) ==> ids != [] && ids[0] == k by {
      forall k | 1 <= k < bound && k in deps && deps[k].dependentId == dependentId &&
                 deps[k].prerequisiteId == prerequisiteId
        ensures ids != [] && ids[0] == k
      {
        assert k in ids;
      }
    }
    if ids == [] then None else Some(ids[0])
  }

  /** The dependency rows of `taskId`, in row-id order: what the store attaches
      to a task for `include: {dependencies: true}`. */
  function DependenciesOf(deps: map<int, Dependency>, bound: int, taskId: int): seq<Dependency>
    requires DepsKeyed(deps)
  {
    Lookup(deps, IdsInOrder(deps, DependentOn(taskId), 1, bound))
  }

  /** The attached rows are exactly the task's rows of the dependency table,
      each once, in ascending row id. */
  lemma DependencyListing(deps: map<int, Dependency>, bound: int, taskId: int)
    requires DepsKeyed(deps)
    ensures var rows := DependenciesOf(deps, bound, taskId);
      && (forall i :: 0 <= i < |rows| ==>
            rows[i].id in deps && deps[rows[i].id] == rows[i] && rows[i].dependentId == taskId)
      && (forall k :: 1 <= k < bound && k in deps && deps[k].dependentId == taskId ==> deps[k] in rows)
      && (forall i, j :: 0 <= i < j < |rows| ==> rows[i].id < rows[j].id)
  {
    var ids := IdsInOrder(deps, DependentOn(taskId), 1, bound);
    var rows := DependenciesOf(deps, bound, taskId);
    forall k | 1 <= k < bound && k in deps && deps[k].dependentId == taskId
      ensures deps[k] in rows
    {
      assert k in ids;
      var i :| 0 <= i < |ids| && ids[i] == k;
      assert rows[i] == deps[k];
    }
  }

  /** With both foreign keys in force, a task id missing from the task table
      has no dependency rows. */
  lemma NoDependenciesOfMissing(tasks: map<int, Task>, deps: map<int, Dependency>, bound: int, taskId: int)
    requires DepsKeyed(deps) && References(tasks, deps) && taskId !in tasks
    ensures DependenciesOf(deps, bound, taskId) == []
  {
    IdsNone(deps, DependentOn(taskId), 1, bound);
  }

  /** The listing entries for the task ids `ids`, in that order. */
  function Entries(tasks: map<int, Task>, deps: map<int, Dependency>, nextDepId: int, ids: seq<int>)
    : (r: seq<TaskWithDependencies>)
    requires DepsKeyed(deps) && forall i :: 0 <= i < |ids| ==> ids[i] in tasks
    ensures |r| == |ids|
    ensures forall i :: 0 <= i < |ids| ==>
      r[i] == TaskWithDependencies(tasks[ids[i]], DependenciesOf(deps, nextDepId, ids[i]))
  {
    seq(|ids|, i requires 0 <= i < |ids| =>
      TaskWithDependencies(tasks[ids[i]], DependenciesOf(deps, nextDepId, ids[i])))
  }

  /** The caller's listing: the active tasks the user owns, in id order, each
      with its dependency rows. */
  function ActiveTasks(tasks: map<int, Task>, deps: map<int, Dependency>, nextTaskId: int, nextDepId: int,
                       userId: int): seq<TaskWithDependencies>
    requires DepsKeyed(deps)
  {
    Entries(tasks, deps, nextDepId, IdsInOrder(tasks, ActiveOwnedBy(userId), 1, nextTaskId))
  }

  /** The listing holds every active task of the user, each once, in id order,
      nothing else, and each with its own dependency rows. */
  lemma ActiveListing(tasks: map<int, Task>, deps: map<int, Dependency>, nextTaskId: int, nextDepId: int,
                      userId: int)
    requires TasksKeyed(tasks) && DepsKeyed(deps)
    ensures var r := ActiveTasks(tasks, deps, nextTaskId, nextDepId, userId);
      && (forall i :: 0 <= i < |r| ==>
            && r[i].task.id in tasks && tasks[r[i].task.id] == r[i].task
            && r[i].task.active && r[i].task.userId == userId
            && r[i].dependencies == DependenciesOf(deps, nextDepId, r[i].task.id))
      && (forall k :: 1 <= k < nextTaskId && k in tasks && tasks[k].active && tasks[k].userId == userId ==>
            exists i :: 0 <= i < |r| && r[i].task.id == k)
      && (forall i, j :: 0 <= i < j < |r| ==> r[i].task.id < r[j].task.id)
  {
    var ids := IdsInOrder(tasks, ActiveOwnedBy(userId), 1, nextTaskId);
    var r := ActiveTasks(tasks, deps, nextTaskId, nextDepId, userId);
    forall k | 1 <= k < nextTaskId && k in tasks && tasks[k].active && tasks[k].userId == userId
      ensures exists i :: 0 <= i < |r| && r[i].task.id == k
    {
      assert k in ids;
      var i :| 0 <= i < |ids| && ids[i] == k;
      assert r[i].task.id == k;
    }
  }

  /** A dependency row stored under the next row id comes last among its
      task's rows; every other task's rows are as before. */
  lemma DependenciesAfterInsert(deps: map<int, Dependency>, bound: int, row: Dependency, taskId: int)
    requires DepsKeyed(deps) && 1 <= bound && row.id == bound
    ensures DepsKeyed(deps[bound := row])
    ensures DependenciesOf(deps[bound := row], bound + 1, taskId)
         == DependenciesOf(deps, bound, taskId) + (if row.dependentId == taskId then [row] else [])
  {
    var deps' := deps[bound := row];
    IdsAfterAppend(deps, DependentOn(taskId), 1, bound, row);
    var ids := IdsInOrder(deps, DependentOn(taskId), 1, bound);
    var ids' := IdsInOrder(deps', DependentOn(taskId), 1, bound + 1);
    var a := DependenciesOf(deps', bound + 1, taskId);
    var b := DependenciesOf(deps, bound, taskId);
    assert |a| == |ids'|;
    forall i | 0 <= i < |b|
      ensures a[i] == b[i]
    {
      assert ids'[i] == ids[i] && ids[i] < bound;
    }
  }

  /** Deleting the `j`-th dependency row of a task removes exactly that row
      from its list and keeps the order of the others. */
  lemma DependenciesAfterDelete(deps: map<int, Dependency>, bound: int, taskId: int, j: int)
    requires DepsKeyed(deps) && 0 <= j < |DependenciesOf(deps, bound, taskId)|
    ensures var rows := DependenciesOf(deps, bound, taskId);
      DependenciesOf(deps - {rows[j].id}, bound, taskId) == rows[..j] + rows[j + 1..]
  {
    var rows := DependenciesOf(deps, bound, taskId);
    var k := rows[j].id;
    var deps' := deps - {k};
    var ids := IdsInOrder(deps, DependentOn(taskId), 1, bound);
    assert ids[j] == k;
    IdsAfterDrop(deps, deps', DependentOn(taskId), 1, bound, j, k);
    var a := DependenciesOf(deps', bound, taskId);
    var b := rows[..j] + rows[j + 1..];
    assert |a| == |b|;
    forall i | 0 <= i < |a|
      ensures a[i] == b[i]
    {
      if i < j {
        assert a[i] == deps[ids[i]];
      } else {
        assert a[i] == deps[ids[i + 1]];
      }
    }
  }

  /** Deleting a row of another task leaves a task's dependency list alone. */
  lemma DependenciesAfterDeleteOther(deps: map<int, Dependency>, bound: int, rowId: int, taskId: int)
    requires DepsKeyed(deps) && rowId in deps && deps[rowId].dependentId != taskId
    ensures DependenciesOf(deps - {rowId}, bound, taskId) == DependenciesOf(deps, bound, taskId)
  {
    var deps' := deps - {rowId};
    IdsFrame(deps, deps', DependentOn(taskId), 1, bound);
    var ids := IdsInOrder(deps, DependentOn(taskId), 1, bound);
    var a := DependenciesOf(deps', bound, taskId);
    var b := DependenciesOf(deps, bound, taskId);
    assert |a| == |b|;
    forall i | 0 <= i < |a|
      ensures a[i] == b[i]
    {
      assert a[i] == deps'[ids[i]];
    }
  }

  /** Every task other than `taskId` has the same dependency rows in both states. */
  ghost predicate SameRowsExcept(deps: map<int, Dependency>, bound: int, deps': map<int, Dependency>, bound': int,
                           taskId: int)
    requires DepsKeyed(deps) && DepsKeyed(deps')
  {
    forall k :: k != taskId ==> DependenciesOf(deps', bound', k) == DependenciesOf(deps, bound, k)
  }

  /** Inserting a row under the next row id changes the dependency rows of
      its dependent only. */
  lemma OthersAfterInsert(deps: map<int, Dependency>, bound: int, row: Dependency)
    requires DepsKeyed(deps) && 1 <= bound && row.id == bound
    ensures DepsKeyed(deps[bound := row])
    ensures SameRowsExcept(deps, bound, deps[bound := row], bound + 1, row.dependentId)
  {
    forall k | k != row.dependentId
      ensures DependenciesOf(deps[bound := row], bound + 1, k) == DependenciesOf(deps, bound, k)
    {
      DependenciesAfterInsert(deps, bound, row, k);
    }
  }

  /** Deleting a row changes the dependency rows of its dependent only. */
  lemma OthersAfterDelete(deps: map<int, Dependency>, bound: int, rowId: int)
    requires DepsKeyed(deps) && rowId in deps
    ensures DepsKeyed(deps - {rowId})
    ensures SameRowsExcept(deps, bound, deps - {rowId}, bound, deps[rowId].dependentId)
  {
    forall k | k != deps[rowId].dependentId
      ensures DependenciesOf(deps - {rowId}, bound, k) == DependenciesOf(deps, bound, k)
    {
      DependenciesAfterDeleteOther(deps, bound, rowId, k);
    }
  }

  /** A task created under the next id is listed last, with its dependency
      rows, when it is active and owned by the caller; the rest of the listing
      is as before. */
  lemma ActiveAfterCreate(tasks: map<int, Task>, deps: map<int, Dependency>, nextTaskId: int, nextDepId: int,
                          userId: int, t: Task)
    requires TasksKeyed(tasks) && DepsKeyed(deps) && 1 <= nextTaskId && t.id == nextTaskId
    ensures TasksKeyed(tasks[nextTaskId := t])
    ensures ActiveTasks(tasks[nextTaskId := t], deps, nextTaskId + 1, nextDepId, userId)
         == ActiveTasks(tasks, deps, nextTaskId, nextDepId, userId)
            + (if t.active && t.userId == userId
               then [TaskWithDependencies(t, DependenciesOf(deps, nextDepId, t.id))] else [])
  {
    var tasks' := tasks[nextTaskId := t];
    IdsAfterAppend(tasks, ActiveOwnedBy(userId), 1, nextTaskId, t);
    var ids := IdsInOrder(tasks, ActiveOwnedBy(userId), 1, nextTaskId);
    var ids' := IdsInOrder(tasks', ActiveOwnedBy(userId), 1, nextTaskId + 1);
    var a := ActiveTasks(tasks', deps, nextTaskId + 1, nextDepId, userId);
    var b := ActiveTasks(tasks, deps, nextTaskId, nextDepId, userId);
    assert |a| == |ids'|;
    forall i | 0 <= i < |b|
      ensures a[i] == b[i]
    {
      assert ids'[i] == ids[i] && ids[i] < nextTaskId;
    }
  }

  /** A task created under the next id together with a dependency row from it
      to `p` is listed last, with that row as its only dependency, when it is
      active and owned by the caller; the rest of the listing is as before. */
  lemma ActiveAfterCreateLinked(tasks: map<int, Task>, deps: map<int, Dependency>, nextTaskId: int,
                                nextDepId: int, userId: int, t: Task, p: int)
    requires TasksKeyed(tasks) && DepsKeyed(deps) && KeysBelow(tasks, nextTaskId) && References(tasks, deps)
    requires 1 <= nextTaskId && t.id == nextTaskId && 1 <= nextDepId
    ensures DepsKeyed(deps[nextDepId := Dependency(nextDepId, t.id, p)])
    ensures ActiveTasks(tasks[nextTaskId := t], deps[nextDepId := Dependency(nextDepId, t.id, p)],
                        nextTaskId + 1, nextDepId + 1, userId)
         == ActiveTasks(tasks, deps, nextTaskId, nextDepId, userId)
            + (if t.active && t.userId == userId
               then [TaskWithDependencies(t, [Dependency(nextDepId, t.id, p)])] else [])
  {
    var row := Dependency(nextDepId, t.id, p);
    var tasks' := tasks[nextTaskId := t];
    var deps' := deps[nextDepId := row];
    IdsAfterAppend(tasks, ActiveOwnedBy(userId), 1, nextTaskId, t);
    var ids := IdsInOrder(tasks, ActiveOwnedBy(userId), 1, nextTaskId);
    var ids' := IdsInOrder(tasks', ActiveOwnedBy(userId), 1, nextTaskId + 1);
    assert DependenciesOf(deps', nextDepId + 1, t.id) == [row] by {
      NoDependenciesOfMissing(tasks, deps, nextDepId, t.id);
      DependenciesAfterInsert(deps, nextDepId, row, t.id);
    }
    var a := ActiveTasks(tasks', deps', nextTaskId + 1, nextDepId + 1, userId);
    var b := ActiveTasks(tasks, deps, nextTaskId, nextDepId, userId)
             + (if t.active && t.userId == userId then [TaskWithDependencies(t, [row])] else []);
    assert |a| == |ids'|;
    forall i | 0 <= i < |a|
      ensures a[i] == b[i]
    {
      if i < |ids| {
        assert ids'[i] == ids[i] && ids[i] < nextTaskId;
        DependenciesAfterInsert(deps, nextDepId, row, ids[i]);
      }
    }
  }

  /** What addNewTask does to the caller's listing: the new task `t`, stored
      under the next id, is appended, carrying the dependency row to `link`'s
      prerequisite when one was written and no rows otherwise. */
  lemma ActiveAfterAddNewTask(tasks: map<int, Task>, deps: map<int, Dependency>, nextTaskId: int, nextDepId: int,
                              tasks': map<int, Task>, deps': map<int, Dependency>, nextTaskId': int,
                              nextDepId': int, userId: int, t: Task, link: Option<int>)
    requires TablesValid(tasks, deps, nextTaskId, nextDepId)
    requires t.id == nextTaskId && t.active && t.userId == userId
    requires tasks' == tasks[nextTaskId := t] && nextTaskId' == nextTaskId + 1
    requires link.None? ==> deps' == deps && nextDepId' == nextDepId
    requires link.Some? ==> deps' == deps[nextDepId := Dependency(nextDepId, t.id, link.value)] && nextDepId' == nextDepId + 1
    ensures DepsKeyed(deps')
    ensures ActiveTasks(tasks', deps', nextTaskId', nextDepId', userId)
         == ActiveTasks(tasks, deps, nextTaskId, nextDepId, userId)
            + [TaskWithDependencies(t, if link.Some? then [Dependency(nextDepId, t.id, link.value)] else [])]
  {
    if link.Some? {
      ActiveAfterCreateLinked(tasks, deps, nextTaskId, nextDepId, userId, t, link.value);
    } else {
      NoDependenciesOfMissing(tasks, deps, nextDepId, t.id);
      ActiveAfterCreate(tasks, deps, nextTaskId, nextDepId, userId, t);
    }
  }

  /** Entries of a list of ids with one id dropped, the rows of the others unchanged. */
  lemma EntriesAfterDrop(tasks: map<int, Task>, tasks': map<int, Task>, deps: map<int, Dependency>,
                         nextDepId: int, ids: seq<int>, j: int)
    requires DepsKeyed(deps) && 0 <= j < |ids|
    requires forall i :: 0 <= i < |ids| ==> ids[i] in tasks
    requires forall i :: 0 <= i < |ids| && i != j ==> ids[i] in tasks' && tasks'[ids[i]] == tasks[ids[i]]
    ensures var e := Entries(tasks, deps, nextDepId, ids);
      Entries(tasks', deps, nextDepId, ids[..j] + ids[j + 1..]) == e[..j] + e[j + 1..]
  {
    var e := Entries(tasks, deps, nextDepId, ids);
    var ids' := ids[..j] + ids[j + 1..];
    var a := Entries(tasks', deps, nextDepId, ids');
    var b := e[..j] + e[j + 1..];
    forall i | 0 <= i < |a|
      ensures a[i] == b[i]
    {
      var i' := if i < j then i else i + 1;
      assert ids'[i] == ids[i'] && b[i] == e[i'];
    }
  }

  /** Entries of the same ids after the row of `ids[j]` was rewritten and
      its dependency rows changed, every other listed task's row and
      dependency rows unchanged. */
  lemma EntriesAfterEdit(tasks: map<int, Task>, tasks': map<int, Task>, deps: map<int, Dependency>,
                         deps': map<int, Dependency>, nextDepId: int, nextDepId': int, ids: seq<int>, j: int)
    requires DepsKeyed(deps) && DepsKeyed(deps') && 0 <= j < |ids|
    requires forall i :: 0 <= i < |ids| ==> ids[i] in tasks && ids[i] in tasks'
    requires forall i :: 0 <= i < |ids| && i != j ==> ids[i] != ids[j] && tasks'[ids[i]] == tasks[ids[i]]
    requires SameRowsExcept(deps, nextDepId, deps', nextDepId', ids[j])
    ensures var e := Entries(tasks, deps, nextDepId, ids);
      Entries(tasks', deps', nextDepId', ids)
      == e[j := TaskWithDependencies(tasks'[ids[j]], DependenciesOf(deps', nextDepId', ids[j]))]
  {
  }

  /** Soft-deleting an eligible task takes its id out of its owner's ids. */
  lemma OwnedIdsAfterSoftDelete(tasks: map<int, Task>, nextTaskId: int, userId: int, id: int) returns (j: int)
    requires KeysBelow(tasks, nextTaskId) && Eligible(tasks, id, userId)
    ensures var ids := IdsInOrder(tasks, ActiveOwnedBy(userId), 1, nextTaskId);
      && 0 <= j < |ids| && ids[j] == id
      && IdsInOrder(tasks[id := tasks[id].(active := false)], ActiveOwnedBy(userId), 1, nextTaskId)
         == ids[..j] + ids[j + 1..]
  {
    var ids := IdsInOrder(tasks, ActiveOwnedBy(userId), 1, nextTaskId);
    assert id in ids;
    j :| 0 <= j < |ids| && ids[j] == id;
    IdsAfterDrop(tasks, tasks[id := tasks[id].(active := false)], ActiveOwnedBy(userId), 1, nextTaskId, j, id);
  }

  /** Soft-deleting an eligible task drops exactly its entry from its owner's
      listing. */
  lemma ActiveAfterSoftDelete(tasks: map<int, Task>, deps: map<int, Dependency>, nextTaskId: int,
                              nextDepId: int, userId: int, id: int) returns (j: int)
    requires TasksKeyed(tasks) && DepsKeyed(deps) && KeysBelow(tasks, nextTaskId)
    requires Eligible(tasks, id, userId)
    ensures TasksKeyed(tasks[id := tasks[id].(active := false)])
    ensures var r := ActiveTasks(tasks, deps, nextTaskId, nextDepId, userId);
      && 0 <= j < |r| && r[j].task.id == id
      && ActiveTasks(tasks[id := tasks[id].(active := false)], deps, nextTaskId, nextDepId, userId)
         == r[..j] + r[j + 1..]
  {
    var tasks' := tasks[id := tasks[id].(active := false)];
    var ids := IdsInOrder(tasks, ActiveOwnedBy(userId), 1, nextTaskId);
    var ids' := IdsInOrder(tasks', ActiveOwnedBy(userId), 1, nextTaskId);
    j := OwnedIdsAfterSoftDelete(tasks, nextTaskId, userId, id);
    var e := Entries(tasks, deps, nextDepId, ids);
    assert Entries(tasks', deps, nextDepId, ids') == e[..j] + e[j + 1..] by {
      EntriesAfterDrop(tasks, tasks', deps, nextDepId, ids, j);
    }
  }

  /** Rewriting an eligible task that stays active and owned by the caller
      keeps its owner's ids, its own among them. */
  lemma OwnedIdsAfterEdit(tasks: map<int, Task>, nextTaskId: int, userId: int, t: Task) returns (j: int)
    requires KeysBelow(tasks, nextTaskId)
    requires Eligible(tasks, t.id, userId) && t.active && t.userId == userId
    ensures var ids := IdsInOrder(tasks, ActiveOwnedBy(userId), 1, nextTaskId);
      && 0 <= j < |ids| && ids[j] == t.id
      && IdsInOrder(tasks[t.id := t], ActiveOwnedBy(userId), 1, nextTaskId) == ids
  {
    var ids := IdsInOrder(tasks, ActiveOwnedBy(userId), 1, nextTaskId);
    assert t.id in ids;
    j :| 0 <= j < |ids| && ids[j] == t.id;
    IdsFrame(tasks, tasks[t.id := t], ActiveOwnedBy(userId), 1, nextTaskId);
  }

  /** Rewriting an eligible task that stays active and owned by the caller,
      and changing no other task's dependency rows, replaces its entry in
      place, now carrying its new dependency rows. */
  lemma ActiveAfterUpdate(tasks: map<int, Task>, deps: map<int, Dependency>, nextTaskId: int, nextDepId: int,
                          deps': map<int, Dependency>, nextDepId': int, userId: int, t: Task) returns (j: int)
    requires TasksKeyed(tasks) && DepsKeyed(deps) && DepsKeyed(deps') && KeysBelow(tasks, nextTaskId)
    requires Eligible(tasks, t.id, userId) && t.active && t.userId == userId
    requires SameRowsExcept(deps, nextDepId, deps', nextDepId', t.id)
    ensures TasksKeyed(tasks[t.id := t])
    ensures var r := ActiveTasks(tasks, deps, nextTaskId, nextDepId, userId);
      && 0 <= j < |r| && r[j].task.id == t.id
      && ActiveTasks(tasks[t.id := t], deps', nextTaskId, nextDepId', userId)
         == r[j := TaskWithDependencies(t, DependenciesOf(deps', nextDepId', t.id))]
  {
    var tasks' := tasks[t.id := t];
    var ids := IdsInOrder(tasks, ActiveOwnedBy(userId), 1, nextTaskId);
    j := OwnedIdsAfterEdit(tasks, nextTaskId, userId, t);
    var e := Entries(tasks, deps, nextDepId, ids);
    assert Entries(tasks', deps', nextDepId', ids)
        == e[j := TaskWithDependencies(t, DependenciesOf(deps', nextDepId', t.id))] by {
      EntriesAfterEdit(tasks, tasks', deps, deps', nextDepId, nextDepId', ids, j);
    }
  }
}
