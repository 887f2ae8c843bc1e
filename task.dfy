/** The task record and its status codec (src/models/task.rs). */
module Models {
  import opened Common

  /** Task status: the four variants of task.rs plus `Exited`, which the monitor and the
      display layer use although task.rs does not declare it. */
  datatype TaskStatus = Running | Completed | NeedsAttention | Failed | Exited

  /** The text stored in the `status` column. task.rs gives no text for `Exited`; the model
      uses "exited", the word the command line help uses for that state. */
  function AsStr(s: TaskStatus): (r: string)
    ensures |r| > 0
  {
    match s
    case Running => "running"
    case Completed => "completed"
    case NeedsAttention => "needs_attention"
    case Failed => "failed"
    case Exited => "exited"
  }

  /** The text of the error `from_str` reports. */
  function InvalidStatusMessage(s: string): string
  {
    "Invalid task status: " + s
  }

  /** Parses a status text; only the four literals of task.rs are accepted. */
  function FromStr(s: string): (r: Result<TaskStatus, string>)
    ensures r.Ok? <==> s == "running" || s == "completed" || s == "needs_attention" || s == "failed"
    ensures r.Ok? ==> r.value != Exited && AsStr(r.value) == s
    ensures r.Err? ==> r.error == InvalidStatusMessage(s)
  {
    match s
    case "running" => Ok(Running)
    case "completed" => Ok(Completed)
    case "needs_attention" => Ok(NeedsAttention)
    case "failed" => Ok(Failed)
    case _ => Err(InvalidStatusMessage(s))
  }

  /** Decoding the encoding of a status gives it back, for every status task.rs declares. */
  lemma StatusRoundTrip(s: TaskStatus)
    requires s != Exited
    ensures FromStr(AsStr(s)) == Ok(s)
  {
  }

  /** `Exited` has no text `from_str` accepts. */
  lemma ExitedNotDecodable()
    ensures FromStr(AsStr(Exited)).Err?
  {
  }

  /** The encoding is injective: two statuses with the same text are the same status. */
  lemma AsStrInjective(a: TaskStatus, b: TaskStatus)
    requires AsStr(a) == AsStr(b)
    ensures a == b
  {
  }

  /** The JSON values the model needs to carry in `context.extra` and `metadata`. */
  datatype Json = JString(s: string) | JInt(i: int)

  datatype TaskContext = TaskContext(
    url: Option<string>,
    projectPath: Option<string>,
    sessionId: Option<string>,
    extra: map<string, Json>)

  /** A task record. Timestamps are whole seconds since the epoch. */
  datatype Task = Task(
    id: Option<int>,
    taskId: string,
    agentType: string,
    title: string,
    status: TaskStatus,
    createdAt: int,
    updatedAt: int,
    completedAt: Option<int>,
    pid: Option<int>,
    ppid: Option<int>,
    monitorPid: Option<int>,
    attentionReason: Option<string>,
    exitCode: Option<int>,
    context: Option<TaskContext>,
    metadata: Option<map<string, Json>>)

  const MaxTitleLength: nat := 100

  /** Keeps a title of at most `maxLen` characters, otherwise cuts it and appends "...".
      The cut point saturates at zero, so the result is "..." when `maxLen < 3`. */
  function TruncateTitle(title: string, maxLen: nat): (r: string)
    ensures |title| <= maxLen ==> r == title
    ensures |title| > maxLen ==> |r| == (if maxLen >= 3 then maxLen else 3) && r[|r| - 3..] == "..."
    ensures |title| > maxLen ==> r[..|r| - 3] == title[..|r| - 3]
  {
    if |title| <= maxLen then title
    else
      var keep := if maxLen >= 3 then maxLen - 3 else 0;
      title[..keep] + "..."
  }

  /** A 150-character title becomes 100 characters ending in "...". */
  lemma LongTitleTruncated(title: string)
    requires |title| == 150
    ensures |TruncateTitle(title, MaxTitleLength)| == 100
    ensures TruncateTitle(title, MaxTitleLength)[97..] == "..."
  {
  }

  /** `Task::new`, with the clock reading `now` passed in. */
  function NewTask(taskId: string, agentType: string, title: string,
                   pid: Option<int>, ppid: Option<int>, now: int): (r: Task)
    ensures r.taskId == taskId && r.agentType == agentType && r.title == TruncateTitle(title, MaxTitleLength)
    ensures r.status == Running && r.createdAt == now && r.updatedAt == now
    ensures r.id.None? && r.completedAt.None? && r.monitorPid.None? && r.attentionReason.None?
    ensures r.exitCode.None? && r.context.None? && r.metadata.None?
    ensures r.pid == pid && r.ppid == ppid
    ensures |r.title| <= MaxTitleLength
  {
    Task(None, taskId, agentType, TruncateTitle(title, MaxTitleLength), Running, now, now,
         None, pid, ppid, None, None, None, None, None)
  }

  /** True when an exit code counts as a failure: present and non-zero. */
  predicate IsFailureCode(exitCode: Option<int>)
  {
    exitCode.Some? && exitCode.value != 0
  }

  /** `Task::complete`: Failed for a present non-zero exit code, Completed otherwise;
      records the exit code and the completion time and touches nothing else. */
  function Complete(t: Task, exitCode: Option<int>, now: int): (r: Task)
    ensures r.status == Failed <==> IsFailureCode(exitCode)
    ensures r.status == Completed <==> !IsFailureCode(exitCode)
    ensures r.exitCode == exitCode && r.completedAt == Some(now) && r.updatedAt == now
    ensures r.(status := t.status, exitCode := t.exitCode, completedAt := t.completedAt, updatedAt := t.updatedAt) == t
  {
    t.(status := if IsFailureCode(exitCode) then Failed else Completed,
       exitCode := exitCode, completedAt := Some(now), updatedAt := now)
  }

  /** `Task::needs_attention`: sets the status and the reason and refreshes `updated_at`;
      every other field, `completed_at` and `exit_code` among them, keeps its value. */
  function MarkNeedsAttention(t: Task, reason: string, now: int): (r: Task)
    ensures r.status == NeedsAttention && r.attentionReason == Some(reason) && r.updatedAt == now
    ensures r.(status := t.status, attentionReason := t.attentionReason, updatedAt := t.updatedAt) == t
  {
    t.(status := NeedsAttention, attentionReason := Some(reason), updatedAt := now)
  }

  /** A fresh task completed with exit code 0 is Completed and keeps the code; with 1 it is Failed. */
  lemma CompletionExamples(t: Task, now: int)
    ensures Complete(t, Some(0), now).status == Completed && Complete(t, Some(0), now).exitCode == Some(0)
    ensures Complete(t, None, now).status == Completed
    ensures Complete(t, Some(1), now).status == Failed && Complete(t, Some(1), now).exitCode == Some(1)
  {
  }
}
