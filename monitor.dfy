/** The process monitor (src/monitor/mod.rs): a polling loop over what `is_process_alive`
    answered and what the store held at each poll. */
module Monitor {
  import opened Common
  import opened Models
  import opened Store

  /** One poll: the liveness oracle's answer and the table as the store held it at that
      moment (other processes may write to the store while the monitor sleeps). */
  datatype Observation = Observation(alive: bool, table: Table)

  /** What the monitor does to the store: a read of its task, or `update_task` with a task. */
  datatype StoreAction = Read | Write(task: Task)

  /** Why the loop ended. `StillWatching` means the observations ran out while the monitor
      would sleep and poll again. */
  datatype Stop = ProcessGone | TaskDeleted | TaskFinished | ReadFailed(error: DbError) | StillWatching

  /** `set_exited` is called by the monitor but its body is not part of this model: the
      monitor is modelled for any such function. */
  type Marker = Task -> Task

  /** The status test after which the monitor stops on its own. */
  predicate Finished(s: TaskStatus)
  {
    s == Completed || s == Exited
  }

  /** The store actions and the final outcome of `monitor_task` over the observations from
      poll `i` on. */
  function TraceFrom(taskId: string, obs: seq<Observation>, i: nat, markExited: Marker): (r: (seq<StoreAction>, Stop))
    requires i <= |obs|
    ensures i < |obs| ==> |r.0| >= 1 && r.0[0] == Read
    ensures r.1 == StillWatching ==> |r.0| == |obs| - i && forall j :: 0 <= j < |r.0| ==> r.0[j] == Read
    decreases |obs| - i
  {
    if i == |obs| then ([], StillWatching)
    else
      var o := obs[i];
      match Get(o.table, taskId)
      case Err(e) => ([Read], ReadFailed(e))
      case Ok(None) => ([Read], if o.alive then TaskDeleted else ProcessGone)
      case Ok(Some(task)) =>
        if !o.alive then ([Read, Write(markExited(task))], ProcessGone)
        else if Finished(task.status) then ([Read], TaskFinished)
        else
          var rest := TraceFrom(taskId, obs, i + 1, markExited);
          ([Read] + rest.0, rest.1)
  }

  /** The whole run. */
  function Trace(taskId: string, obs: seq<Observation>, markExited: Marker): (seq<StoreAction>, Stop)
  {
    TraceFrom(taskId, obs, 0, markExited)
  }

  /** The number of `Write` actions in a trace. */
  function Writes(a: seq<StoreAction>): nat
  {
    if a == [] then 0 else (if a[0].Write? then 1 else 0) + Writes(a[1..])
  }

  /** Over any run the monitor writes at most once; a write is its last store action and
      happens only when the process has gone. */
  lemma {:induction false} AtMostOneFinalWrite(taskId: string, obs: seq<Observation>, i: nat, markExited: Marker)
    requires i <= |obs|
    ensures var (a, stop) := TraceFrom(taskId, obs, i, markExited);
      && Writes(a) <= 1
      && (forall j :: 0 <= j < |a| && a[j].Write? ==> j == |a| - 1)
      && (Writes(a) == 1 ==> stop == ProcessGone)
    decreases |obs| - i
  {
    if i < |obs| {
      var o := obs[i];
      var g := Get(o.table, taskId);
      if g.Ok? && g.value.Some? && o.alive && !Finished(g.value.value.status) {
        AtMostOneFinalWrite(taskId, obs, i + 1, markExited);
        var rest := TraceFrom(taskId, obs, i + 1, markExited);
        assert ([Read] + rest.0)[1..] == rest.0;
        assert Writes([Read] + rest.0) == Writes(rest.0);
      } else if g.Ok? && g.value.Some? && !o.alive {
        var w := Write(markExited(g.value.value));
        assert [w][1..] == [];
        assert Writes([w]) == 1;
        assert [Read, w][1..] == [w];
        assert Writes([Read, w]) == 1;
      } else {
        assert [Read][1..] == [];
        assert Writes([Read]) == 0;
      }
    }
  }

  /** A poll that finds the process gone writes `set_exited` of the stored task, or nothing if
      the task is gone, and stops. */
  lemma ProcessGoneWritesOnce(taskId: string, obs: seq<Observation>, i: nat, markExited: Marker)
    requires i < |obs| && !obs[i].alive && Get(obs[i].table, taskId).Ok?
    ensures taskId in obs[i].table.rows ==>
      TraceFrom(taskId, obs, i, markExited)
        == ([Read, Write(markExited(Get(obs[i].table, taskId).value.value))], ProcessGone)
    ensures taskId !in obs[i].table.rows ==> TraceFrom(taskId, obs, i, markExited) == ([Read], ProcessGone)
  {
  }

  /** While the process lives and its task is stored as Running, NeedsAttention or Failed,
      the monitor only reads, once per poll, and keeps polling. */
  lemma {:induction false} ActiveTaskKeepsPolling(taskId: string, obs: seq<Observation>, i: nat, markExited: Marker)
    requires i <= |obs|
    requires forall j :: i <= j < |obs| ==> obs[j].alive && taskId in obs[j].table.rows
    requires forall j :: i <= j < |obs| ==>
      obs[j].table.rows[taskId].status in {AsStr(Running), AsStr(NeedsAttention), AsStr(Failed)}
    ensures var (a, stop) := TraceFrom(taskId, obs, i, markExited);
      stop == StillWatching && |a| == |obs| - i && forall j :: 0 <= j < |a| ==> a[j] == Read
    decreases |obs| - i
  {
    if i < |obs| {
      ActiveTaskKeepsPolling(taskId, obs, i + 1, markExited);
      var row := obs[i].table.rows[taskId];
      assert FromStr(row.status).Ok?;
      var task := RowToTask(taskId, row).value;
      assert AsStr(task.status) == row.status;
      assert !Finished(task.status);
      assert Get(obs[i].table, taskId) == Ok(Some(task));
    }
  }

  /** A poll that sees the process alive stops without writing when the task was deleted or
      is stored as Completed. */
  lemma AliveStops(taskId: string, obs: seq<Observation>, i: nat, markExited: Marker)
    requires i < |obs| && obs[i].alive
    ensures taskId !in obs[i].table.rows ==> TraceFrom(taskId, obs, i, markExited) == ([Read], TaskDeleted)
    ensures taskId in obs[i].table.rows && obs[i].table.rows[taskId].status == AsStr(Completed) ==>
      TraceFrom(taskId, obs, i, markExited) == ([Read], TaskFinished)
  {
  }

  /** The Exited test can never fire: a row stored as Exited fails to decode, so the monitor
      ends with a read error instead. */
  lemma ExitedRowEndsInReadError(taskId: string, obs: seq<Observation>, markExited: Marker)
    requires |obs| > 0 && taskId in obs[0].table.rows
    requires obs[0].table.rows[taskId].status == AsStr(Exited)
    ensures Trace(taskId, obs, markExited).1.ReadFailed?
    ensures Trace(taskId, obs, markExited).0 == [Read]
  {
  }

  /** `TaskMonitor::monitor_task`: polls until the process is gone, the task is deleted or
      finished, a read fails, or the observations run out. */
  method MonitorTask(taskId: string, obs: seq<Observation>, markExited: Marker)
    returns (actions: seq<StoreAction>, stop: Stop)
    ensures (actions, stop) == Trace(taskId, obs, markExited)
  {
    actions := [];
    stop := StillWatching;
    var i := 0;
    ghost var whole := Trace(taskId, obs, markExited);
    while i < |obs|
      invariant 0 <= i <= |obs|
      invariant whole.0 == actions + TraceFrom(taskId, obs, i, markExited).0
      invariant whole.1 == TraceFrom(taskId, obs, i, markExited).1
    {
      var o := obs[i];
      if !o.alive {
        // process died: mark the task exited if it is still stored
        var found := Get(o.table, taskId);
        match found {
          case Err(e) =>
            actions, stop := actions + [Read], ReadFailed(e);
          case Ok(None) =>
            actions, stop := actions + [Read], ProcessGone;
          case Ok(Some(task)) =>
            actions, stop := actions + [Read, Write(markExited(task))], ProcessGone;
        }
        return;
      }
      var found := Get(o.table, taskId);
      match found {
        case Err(e) =>
          actions, stop := actions + [Read], ReadFailed(e);
          return;
        case Ok(None) =>
          actions, stop := actions + [Read], TaskDeleted;
          return;
        case Ok(Some(task)) =>
          if Finished(task.status) {
            actions, stop := actions + [Read], TaskFinished;
            return;
          }
      }
      ghost var rest := TraceFrom(taskId, obs, i + 1, markExited);
      assert actions + ([Read] + rest.0) == (actions + [Read]) + rest.0;
      actions := actions + [Read];
      i := i + 1;
    }
    assert actions + [] == actions;
  }
}
