/** The task store (src/db/mod.rs) with SQLite abstracted to a table keyed by `task_id`. */
module Store {
  import opened Common
  import opened Models
  import Sorting

  /** The schema version this code writes and expects. */
  const SchemaVersion: int := 1

  datatype DbError =
    | UniqueViolation(taskId: string)   // INSERT of a task_id already present (task_id is UNIQUE)
    | InvalidStatus(message: string)    // a stored status text `from_str` refuses
    | SchemaExists                      // CREATE TABLE tasks over an existing table
    | MigrationNotImplemented           // stored schema version older than SchemaVersion

  /** The text an error prints as. */
  function ErrorMessage(e: DbError): string
  {
    match e
    case UniqueViolation(k) => "UNIQUE constraint failed: tasks.task_id"
    case InvalidStatus(m) => m
    case SchemaExists => "table tasks already exists"
    case MigrationNotImplemented => "Database schema migration not yet implemented"
  }

  /** One row of the `tasks` table; `task_id` is the key it is stored under.
      `status` is the TEXT column, written with `as_str`. */
  datatype Row = Row(
    id: int,
    agentType: string,
    title: string,
    status: string,
    createdAt: int,
    updatedAt: int,
    completedAt: Option<int>,
    pid: Option<int>,
    ppid: Option<int>,
    monitorPid: Option<int>,
    attentionReason: Option<string>,
    exitCode: Option<int>,
    context: Option<TaskContext>,
    metadata: Option<map<string, Json>>)

  /** The table: rows by `task_id`, and the AUTOINCREMENT counter (the largest row id ever issued). */
  datatype Table = Table(rows: map<string, Row>, lastRowId: int)

  /** Row ids are positive, no larger than the counter, and distinct. */
  ghost predicate WellFormed(t: Table)
  {
    && t.lastRowId >= 0
    && (forall k :: k in t.rows ==> 0 < t.rows[k].id <= t.lastRowId)
    && (forall k1, k2 :: k1 in t.rows && k2 in t.rows && k1 != k2 ==> t.rows[k1].id != t.rows[k2].id)
  }

  /** The columns `insert_task` writes for `task` under row id `id` (the task's own `id` is ignored). */
  function ToRow(task: Task, id: int): Row
  {
    Row(id, task.agentType, task.title, AsStr(task.status), task.createdAt, task.updatedAt,
        task.completedAt, task.pid, task.ppid, task.monitorPid, task.attentionReason,
        task.exitCode, task.context, task.metadata)
  }

  /** `row_to_task`: fails exactly when the status text does not parse. */
  function RowToTask(key: string, row: Row): (r: Result<Task, DbError>)
    ensures r.Err? <==> FromStr(row.status).Err?
    ensures r.Err? ==> r.error == InvalidStatus(InvalidStatusMessage(row.status))
    ensures r.Ok? ==> r.value.taskId == key && r.value.id == Some(row.id) && AsStr(r.value.status) == row.status
    ensures r.Ok? ==> ToRow(r.value, row.id) == row
  {
    match FromStr(row.status)
    case Err(msg) => Err(InvalidStatus(msg))
    case Ok(s) =>
      Ok(Task(Some(row.id), key, row.agentType, row.title, s, row.createdAt, row.updatedAt,
              row.completedAt, row.pid, row.ppid, row.monitorPid, row.attentionReason,
              row.exitCode, row.context, row.metadata))
  }

  /** Reading back a written row gives the task with its row id, unless its status is Exited. */
  lemma RowRoundTrip(task: Task, id: int)
    ensures task.status != Exited ==> RowToTask(task.taskId, ToRow(task, id)) == Ok(task.(id := Some(id)))
    ensures task.status == Exited ==> RowToTask(task.taskId, ToRow(task, id)).Err?
  {
    if task.status != Exited {
      StatusRoundTrip(task.status);
    }
  }

  // ---------------------------------------------------------------------------------------
  // The statements, as functions of the table

  /** `INSERT INTO tasks ...`: fails on a duplicate key and leaves the table as it was;
      otherwise stores the row under the next row id and returns that id. */
  function Insert(t: Table, task: Task): (r: (Table, Result<int, DbError>))
    ensures r.1.Err? <==> task.taskId in t.rows
    ensures r.1.Err? ==> r.0 == t && r.1.error == UniqueViolation(task.taskId)
    ensures r.1.Ok? ==> r.1.value > t.lastRowId
    ensures r.1.Ok? ==> r.0.lastRowId == r.1.value && r.0.rows.Keys == t.rows.Keys + {task.taskId}
    ensures r.1.Ok? ==> r.0.rows[task.taskId] == ToRow(task, r.1.value)
    ensures forall k :: k in t.rows ==> k in r.0.rows && r.0.rows[k] == t.rows[k]
  {
    if task.taskId in t.rows then (t, Err(UniqueViolation(task.taskId)))
    else
      var id := t.lastRowId + 1;
      (Table(t.rows[task.taskId := ToRow(task, id)], id), Ok(id))
  }

  /** The columns `UPDATE tasks SET ...` leaves alone: the row id and `created_at`. */
  function UpdateRow(old_: Row, task: Task): Row
  {
    ToRow(task, old_.id).(createdAt := old_.createdAt)
  }

  /** `UPDATE tasks SET ... WHERE task_id = ?`: rewrites every mutable column of the row with
      the task's key from the task and keeps its row id and `created_at`; a missing key
      changes nothing (and is not an error). */
  function Update(t: Table, task: Task): (r: Table)
    ensures r.lastRowId == t.lastRowId && r.rows.Keys == t.rows.Keys
    ensures task.taskId !in t.rows ==> r == t
    ensures task.taskId in t.rows ==>
      && r.rows[task.taskId].id == t.rows[task.taskId].id
      && r.rows[task.taskId].createdAt == t.rows[task.taskId].createdAt
      && r.rows[task.taskId].(id := 0, createdAt := 0) == ToRow(task, 0).(createdAt := 0)
    ensures forall k :: k in t.rows && k != task.taskId ==> r.rows[k] == t.rows[k]
  {
    if task.taskId in t.rows then
      Table(t.rows[task.taskId := UpdateRow(t.rows[task.taskId], task)], t.lastRowId)
    else t
  }

  /** `SELECT ... WHERE task_id = ?` followed by `row_to_task`. */
  function Get(t: Table, key: string): (r: Result<Option<Task>, DbError>)
    ensures r == Ok(None) <==> key !in t.rows
    ensures r.Err? <==> key in t.rows && FromStr(t.rows[key].status).Err?
    ensures r.Ok? && r.value.Some? ==> key in t.rows && RowToTask(key, t.rows[key]) == Ok(r.value.value)
  {
    if key !in t.rows then Ok(None)
    else
      match RowToTask(key, t.rows[key])
      case Err(e) => Err(e)
      case Ok(task) => Ok(Some(task))
  }

  /** `DELETE FROM tasks WHERE task_id = ?`: reports whether a row was affected. */
  function Delete(t: Table, key: string): (r: (Table, bool))
    ensures r.1 <==> key in t.rows
    ensures r.0.lastRowId == t.lastRowId && r.0.rows.Keys == t.rows.Keys - {key}
    ensures forall k :: k in r.0.rows ==> r.0.rows[k] == t.rows[k]
  {
    (Table(t.rows - {key}, t.lastRowId), key in t.rows)
  }

  /** The row condition of the retention sweep: `status = 'completed' AND completed_at < cutoff`.
      A NULL `completed_at` makes the comparison NULL, so such a row is kept. */
  predicate Expired(row: Row, cutoff: int)
  {
    row.status == "completed" && row.completedAt.Some? && row.completedAt.value < cutoff
  }

  function ExpiredKeys(t: Table, cutoff: int): set<string>
  {
    set k | k in t.rows && Expired(t.rows[k], cutoff)
  }

  /** `cleanup_old_completed(secs)` at clock reading `now`: deletes the expired rows for
      cutoff `now - secs` and returns how many it deleted. */
  function Cleanup(t: Table, olderThanSecs: int, now: int): (r: (Table, nat))
    ensures r.0.lastRowId == t.lastRowId
    ensures forall k :: k in r.0.rows <==> k in t.rows && !Expired(t.rows[k], now - olderThanSecs)
    ensures forall k :: k in r.0.rows ==> r.0.rows[k] == t.rows[k]
    ensures r.1 == |t.rows| - |r.0.rows|
  {
    var doomed := ExpiredKeys(t, now - olderThanSecs);
    var kept := t.rows - doomed;
    assert kept.Keys == t.rows.Keys - doomed;
    assert doomed <= t.rows.Keys;
    (Table(kept, t.lastRowId), |doomed|)
  }

  /** The filter of `list_tasks`: all rows, or those whose status text is that of `filter`. */
  predicate Selected(row: Row, filter: Option<TaskStatus>)
  {
    filter.None? || row.status == AsStr(filter.value)
  }

  function SelectedKeys(t: Table, filter: Option<TaskStatus>): set<string>
  {
    set k | k in t.rows && Selected(t.rows[k], filter)
  }

  function UpdatedAt(t: Task): int
  {
    t.updatedAt
  }

  /** `ORDER BY updated_at DESC`. */
  ghost predicate ByUpdatedDescending(s: seq<Task>)
  {
    Sorting.DescendingBy(s, UpdatedAt)
  }

  /** `out` is a correct answer of `list_tasks(filter)`: one task per selected row, each the
      decoded row, and nothing else, in descending `updated_at` order (ties in any order). */
  ghost predicate IsListing(t: Table, filter: Option<TaskStatus>, out: seq<Task>)
  {
    && (forall e :: e in out ==> e.taskId in t.rows && Selected(t.rows[e.taskId], filter)
                                 && RowToTask(e.taskId, t.rows[e.taskId]) == Ok(e))
    && (forall k :: k in t.rows && Selected(t.rows[k], filter) ==>
                      RowToTask(k, t.rows[k]).Ok? && RowToTask(k, t.rows[k]).value in out)
    && |out| == |SelectedKeys(t, filter)|
    && ByUpdatedDescending(out)
  }

  // ---------------------------------------------------------------------------------------
  // Properties of the statements

  /** Every statement keeps the table well formed. */
  lemma InsertKeepsWellFormed(t: Table, task: Task)
    requires WellFormed(t)
    ensures WellFormed(Insert(t, task).0)
  {
  }

  lemma UpdateKeepsWellFormed(t: Table, task: Task)
    requires WellFormed(t)
    ensures WellFormed(Update(t, task))
  {
  }

  lemma DeleteKeepsWellFormed(t: Table, key: string)
    requires WellFormed(t)
    ensures WellFormed(Delete(t, key).0)
  {
  }

  lemma CleanupKeepsWellFormed(t: Table, olderThanSecs: int, now: int)
    requires WellFormed(t)
    ensures WellFormed(Cleanup(t, olderThanSecs, now).0)
  {
  }

  /** After a successful insert the task reads back with its new row id; its key, agent type
      and status are those inserted. An Exited task is stored but cannot be read back. */
  lemma InsertThenGet(t: Table, task: Task)
    requires task.taskId !in t.rows
    ensures Insert(t, task).1.Ok?
    ensures var id := Insert(t, task).1.value;
      task.status != Exited ==> Get(Insert(t, task).0, task.taskId) == Ok(Some(task.(id := Some(id))))
    ensures task.status == Exited ==> Get(Insert(t, task).0, task.taskId).Err?
  {
    RowRoundTrip(task, Insert(t, task).1.value);
  }

  /** Row ids handed out by two successive inserts are positive and strictly increasing,
      whatever deletions, updates or sweeps happen in between. */
  lemma InsertIdsIncrease(t: Table, a: Task, b: Task, between: Table)
    requires WellFormed(t)
    requires Insert(t, a).1.Ok?
    requires between.lastRowId >= Insert(t, a).0.lastRowId
    requires Insert(between, b).1.Ok?
    ensures 0 < Insert(t, a).1.value < Insert(between, b).1.value
  {
  }

  /** No statement lowers the row id counter. */
  lemma CounterNeverDecreases(t: Table, task: Task, key: string, secs: int, now: int)
    ensures Insert(t, task).0.lastRowId >= t.lastRowId
    ensures Update(t, task).lastRowId == t.lastRowId
    ensures Delete(t, key).0.lastRowId == t.lastRowId
    ensures Cleanup(t, secs, now).0.lastRowId == t.lastRowId
  {
  }

  /** After an update of a present row the read gives the argument, except for the stored
      row id and `created_at`. */
  lemma UpdateThenGet(t: Table, task: Task)
    requires task.taskId in t.rows && task.status != Exited
    ensures Get(Update(t, task), task.taskId)
         == Ok(Some(task.(id := Some(t.rows[task.taskId].id), createdAt := t.rows[task.taskId].createdAt)))
  {
    var r := UpdateRow(t.rows[task.taskId], task);
    StatusRoundTrip(task.status);
    assert RowToTask(task.taskId, r).Ok?;
  }

  /** After a delete the key reads as missing and every other row reads as before. */
  lemma DeleteThenGet(t: Table, key: string, other: string)
    requires other != key
    ensures Get(Delete(t, key).0, key) == Ok(None)
    ensures Get(Delete(t, key).0, other) == Get(t, other)
  {
  }

  /** The retention boundary: a row completed exactly at the cutoff survives, one completed a
      second earlier is deleted. */
  lemma CleanupBoundary(t: Table, key: string, secs: int, now: int)
    requires key in t.rows && t.rows[key].status == AsStr(Completed)
    ensures t.rows[key].completedAt == Some(now - secs) ==> key in Cleanup(t, secs, now).0.rows
    ensures t.rows[key].completedAt == Some(now - secs - 1) ==> key !in Cleanup(t, secs, now).0.rows
  {
  }

  /** The sweep never deletes a row of another status (Failed and Exited included) nor one
      with no completion time. */
  lemma CleanupSparesOthers(t: Table, key: string, secs: int, now: int)
    requires key in t.rows
    requires t.rows[key].status != AsStr(Completed) || t.rows[key].completedAt.None?
    ensures key in Cleanup(t, secs, now).0.rows && Cleanup(t, secs, now).0.rows[key] == t.rows[key]
  {
  }

  /** The loop state of `list_tasks` once the keys outside `remaining` have been visited:
      `done` holds the selected visited keys, all decodable, and `out` their tasks in order. */
  ghost predicate ListingSoFar(t: Table, filter: Option<TaskStatus>, remaining: set<string>,
                               done: set<string>, out: seq<Task>)
  {
    && (forall k :: k in done <==> k in t.rows && k !in remaining && Selected(t.rows[k], filter))
    && (forall e :: e in out ==> e.taskId in done && RowToTask(e.taskId, t.rows[e.taskId]) == Ok(e))
    && (forall k :: k in done ==> RowToTask(k, t.rows[k]).Ok? && RowToTask(k, t.rows[k]).value in out)
    && |out| == |done|
    && ByUpdatedDescending(out)
  }

  lemma ListingAdd(t: Table, filter: Option<TaskStatus>, remaining: set<string>,
                   done: set<string>, out: seq<Task>, k: string)
    requires ListingSoFar(t, filter, remaining, done, out)
    requires k in remaining && k in t.rows && Selected(t.rows[k], filter) && RowToTask(k, t.rows[k]).Ok?
    ensures ListingSoFar(t, filter, remaining - {k}, done + {k},
                         Sorting.InsertDescending(out, RowToTask(k, t.rows[k]).value, UpdatedAt))
  {
    ListingAddDone(t, filter, remaining, done, k);
    ListingAddTasks(t, done, out, k);
    ListingAddKeys(t, done, out, k);
  }

  /** The visited selected keys grow by the key just visited. */
  lemma ListingAddDone(t: Table, filter: Option<TaskStatus>, remaining: set<string>, done: set<string>, k: string)
    requires forall k' :: k' in done <==> k' in t.rows && k' !in remaining && Selected(t.rows[k'], filter)
    requires k in remaining && k in t.rows && Selected(t.rows[k], filter)
    ensures forall k' :: k' in done + {k} <==> k' in t.rows && k' !in remaining - {k} && Selected(t.rows[k'], filter)
    ensures |done + {k}| == |done| + 1
  {
    assert k !in done;
  }

  /** The new listing holds only decoded selected rows. */
  lemma ListingAddTasks(t: Table, done: set<string>, out: seq<Task>, k: string)
    requires done <= t.rows.Keys
    requires forall e :: e in out ==> e.taskId in done && RowToTask(e.taskId, t.rows[e.taskId]) == Ok(e)
    requires Sorting.DescendingBy(out, UpdatedAt)
    requires k in t.rows && RowToTask(k, t.rows[k]).Ok?
    ensures var out' := Sorting.InsertDescending(out, RowToTask(k, t.rows[k]).value, UpdatedAt);
      forall e :: e in out' ==> e.taskId in done + {k} && RowToTask(e.taskId, t.rows[e.taskId]) == Ok(e)
  {
    var task := RowToTask(k, t.rows[k]).value;
    Sorting.InsertMembers(out, task, UpdatedAt);
  }

  /** Every visited selected row has its task in the new listing. */
  lemma ListingAddKeys(t: Table, done: set<string>, out: seq<Task>, k: string)
    requires forall k' :: k' in done ==> k' in t.rows && RowToTask(k', t.rows[k']).Ok? && RowToTask(k', t.rows[k']).value in out
    requires Sorting.DescendingBy(out, UpdatedAt)
    requires k in t.rows && RowToTask(k, t.rows[k]).Ok?
    ensures var out' := Sorting.InsertDescending(out, RowToTask(k, t.rows[k]).value, UpdatedAt);
      forall k' :: k' in done + {k} ==> RowToTask(k', t.rows[k']).Ok? && RowToTask(k', t.rows[k']).value in out'
  {
    var task := RowToTask(k, t.rows[k]).value;
    Sorting.InsertMembers(out, task, UpdatedAt);
  }

  lemma ListingSkip(t: Table, filter: Option<TaskStatus>, remaining: set<string>,
                    done: set<string>, out: seq<Task>, k: string)
    requires ListingSoFar(t, filter, remaining, done, out)
    requires k in t.rows && !Selected(t.rows[k], filter)
    ensures ListingSoFar(t, filter, remaining - {k}, done, out)
  {
  }

  lemma ListingDone(t: Table, filter: Option<TaskStatus>, done: set<string>, out: seq<Task>)
    requires ListingSoFar(t, filter, {}, done, out)
    ensures IsListing(t, filter, out)
    ensures forall k :: k in t.rows && Selected(t.rows[k], filter) ==> FromStr(t.rows[k].status).Ok?
  {
    assert done == SelectedKeys(t, filter);
  }

  /** With a filter, every listed task has the filter's status. */
  lemma ListingHasFilterStatus(t: Table, s: TaskStatus, out: seq<Task>, e: Task)
    requires IsListing(t, Some(s), out) && e in out
    ensures e.status == s
  {
    AsStrInjective(e.status, s);
  }

  /** A row stored with status Exited makes every unfiltered list fail. */
  lemma ExitedRowBreaksListing(t: Table, key: string, out: seq<Task>)
    requires key in t.rows && t.rows[key].status == AsStr(Exited)
    ensures !IsListing(t, None, out)
  {
    assert Selected(t.rows[key], None);
  }

  // ---------------------------------------------------------------------------------------
  // The connection

  /** `Database`: the schema-version table, whether the `tasks` table exists, and its rows. */
  class Database {
    var version: Option<int>
    var hasTasksTable: bool
    var rows: map<string, Row>
    var lastRowId: int

    function State(): Table
      reads this
    {
      Table(rows, lastRowId)
    }

    /** A connection that `open` returned: the schema exists and the table is well formed. */
    ghost predicate Valid()
      reads this
    {
      hasTasksTable && WellFormed(State())
    }

    /** `Connection::open` on a file holding `version` and, when present, the tasks table. */
    constructor Connect(version: Option<int>, tasks: Option<Table>)
      requires version.Some? ==> tasks.Some?
      requires tasks.Some? ==> WellFormed(tasks.value)
      ensures this.version == version && hasTasksTable == tasks.Some?
      ensures tasks.Some? ==> State() == tasks.value
    {
      this.version := version;
      hasTasksTable := tasks.Some?;
      rows := if tasks.Some? then tasks.value.rows else map[];
      lastRowId := if tasks.Some? then tasks.value.lastRowId else 0;
    }

    /** `initialize`: with no stored version, creates the empty schema and records version 1;
        a stored version below 1 is an error; any other version is accepted as it is. */
    method Initialize() returns (r: Result<(), DbError>)
      requires version.Some? ==> hasTasksTable
      requires hasTasksTable ==> WellFormed(State())
      modifies this
      ensures old(version).None? && !old(hasTasksTable) ==>
        r.Ok? && version == Some(SchemaVersion) && hasTasksTable && rows == map[] && lastRowId == 0
      ensures old(version).None? && old(hasTasksTable) ==>
        r == Err(SchemaExists) && unchanged(this)
      ensures old(version).Some? && old(version).value < SchemaVersion ==>
        r == Err(MigrationNotImplemented) && unchanged(this)
      ensures old(version).Some? && old(version).value >= SchemaVersion ==> r.Ok? && unchanged(this)
      ensures r.Ok? ==> Valid()
    {
      match version
      case None =>
        if hasTasksTable {
          return Err(SchemaExists);
        }
        hasTasksTable := true;
        rows := map[];
        lastRowId := 0;
        version := Some(SchemaVersion);
        return Ok(());
      case Some(v) =>
        if v < SchemaVersion {
          return Err(MigrationNotImplemented);
        }
        return Ok(());
    }

    method InsertTask(task: Task) returns (r: Result<int, DbError>)
      requires Valid()
      modifies this`rows, this`lastRowId
      ensures Valid()
      ensures (State(), r) == Insert(old(State()), task)
    {
      if task.taskId in rows {
        return Err(UniqueViolation(task.taskId));
      }
      lastRowId := lastRowId + 1;
      rows := rows[task.taskId := ToRow(task, lastRowId)];
      r := Ok(lastRowId);
    }

    method UpdateTask(task: Task) returns (r: Result<(), DbError>)
      requires Valid()
      modifies this`rows
      ensures Valid()
      ensures State() == Update(old(State()), task) && r == Ok(())
    {
      if task.taskId in rows {
        rows := rows[task.taskId := UpdateRow(rows[task.taskId], task)];
      }
      r := Ok(());
    }

    method GetTaskById(taskId: string) returns (r: Result<Option<Task>, DbError>)
      requires Valid()
      ensures r == Get(State(), taskId)
    {
      if taskId !in rows {
        return Ok(None);
      }
      var row := rows[taskId];
      match FromStr(row.status)
      case Err(msg) =>
        r := Err(InvalidStatus(msg));
      case Ok(s) =>
        r := Ok(Some(Task(Some(row.id), taskId, row.agentType, row.title, s, row.createdAt,
                          row.updatedAt, row.completedAt, row.pid, row.ppid, row.monitorPid,
                          row.attentionReason, row.exitCode, row.context, row.metadata)));
    }

    /** `list_tasks`: decodes every selected row; a row that does not decode fails the call. */
    method ListTasks(filter: Option<TaskStatus>) returns (r: Result<seq<Task>, DbError>)
      requires Valid()
      ensures r.Ok? ==> IsListing(State(), filter, r.value)
      ensures r.Err? <==> exists k :: k in rows && Selected(rows[k], filter) && FromStr(rows[k].status).Err?
      ensures r.Err? ==> exists k :: k in rows && Selected(rows[k], filter) && RowToTask(k, rows[k]) == Err(r.error)
    {
      var remaining := rows.Keys;
      var out: seq<Task> := [];
      ghost var done: set<string> := {};
      while remaining != {}
        invariant remaining <= rows.Keys
        invariant ListingSoFar(State(), filter, remaining, done, out)
        invariant ByUpdatedDescending(out)  // implied by ListingSoFar; stated apart so the order survives cheaply
        decreases remaining
      {
        var k :| k in remaining;
        var row := rows[k];
        if Selected(row, filter) {
          match RowToTask(k, row)
          case Err(e) =>
            return Err(e);
          case Ok(task) =>
            ListingAdd(State(), filter, remaining, done, out, k);
            out := Sorting.InsertDescending(out, task, UpdatedAt);
            done := done + {k};
        } else {
          ListingSkip(State(), filter, remaining, done, out, k);
        }
        remaining := remaining - {k};
      }
      ListingDone(State(), filter, done, out);
      return Ok(out);
    }

    method DeleteTask(taskId: string) returns (r: Result<bool, DbError>)
      requires Valid()
      modifies this`rows
      ensures Valid()
      ensures (State(), r) == (Delete(old(State()), taskId).0, Ok(Delete(old(State()), taskId).1))
    {
      r := Ok(taskId in rows);
      rows := rows - {taskId};
    }

    /** `cleanup_old_completed(secs)` with the clock reading `now`. */
    method CleanupOldCompleted(olderThanSecs: int, now: int) returns (r: Result<nat, DbError>)
      requires Valid()
      modifies this`rows
      ensures Valid()
      ensures (State(), r) == (Cleanup(old(State()), olderThanSecs, now).0, Ok(Cleanup(old(State()), olderThanSecs, now).1))
    {
      CleanupKeepsWellFormed(State(), olderThanSecs, now);
      var doomed := ExpiredKeys(State(), now - olderThanSecs);
      rows := rows - doomed;
      r := Ok(|doomed|);
    }
  }
}
