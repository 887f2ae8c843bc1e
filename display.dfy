/** The computational parts of the terminal display (src/display/mod.rs): the elapsed-time
    label, string truncation, and the grouping and numbering of the task list. */
module Display {
  import opened Common
  import opened Models
  import Sorting
  import Store

  // ---------------------------------------------------------------------------------------
  // Elapsed time

  /** The unit `format_elapsed` chooses and the number it shows. */
  datatype Elapsed = Seconds(n: int) | Minutes(n: int) | Hours(n: int) | Days(n: int)

  const Minute: int := 60
  const Hour: int := 3600
  const Day: int := 86400

  /** `format_elapsed(timestamp)` with the clock reading `now`. The divisions only happen on
      positive operands, where Rust's truncating `/` and Dafny's agree. */
  function FormatElapsed(timestamp: int, now: int): (r: Elapsed)
    ensures var e := now - timestamp;
      && (r.Seconds? <==> e < Minute)
      && (r.Minutes? <==> Minute <= e < Hour)
      && (r.Hours? <==> Hour <= e < Day)
      && (r.Days? <==> Day <= e)
      && (r.Seconds? ==> r.n == e)
      && (r.Minutes? ==> Minute * r.n <= e < Minute * (r.n + 1) && 1 <= r.n <= 59)
      && (r.Hours? ==> Hour * r.n <= e < Hour * (r.n + 1) && 1 <= r.n <= 23)
      && (r.Days? ==> Day * r.n <= e < Day * (r.n + 1) && 1 <= r.n)
  {
    var elapsed := now - timestamp;
    if elapsed < Minute then Seconds(elapsed)
    else if elapsed < Hour then Minutes(elapsed / Minute)
    else if elapsed < Day then Hours(elapsed / Hour)
    else Days(elapsed / Day)
  }

  /** Decimal digits of a natural number, most significant first, without leading zeros. */
  function NatToString(n: nat): (r: string)
    ensures |r| >= 1 && forall i :: 0 <= i < |r| ==> '0' <= r[i] <= '9'
    ensures r[0] != '0' || n == 0
    decreases n
  {
    var d := [('0' as int + n % 10) as char];
    if n < 10 then d else NatToString(n / 10) + d
  }

  /** The value of a string of decimal digits. */
  function DigitsValue(s: string): nat
    requires forall i :: 0 <= i < |s| ==> '0' <= s[i] <= '9'
  {
    if s == [] then 0 else 10 * DigitsValue(s[..|s| - 1]) + (s[|s| - 1] as int - '0' as int)
  }

  /** Reading the digits back gives the number: the rendering loses nothing. */
  lemma {:induction false} NatToStringRoundTrip(n: nat)
    ensures DigitsValue(NatToString(n)) == n
    decreases n
  {
    var r := NatToString(n);
    if n >= 10 {
      NatToStringRoundTrip(n / 10);
      assert r[..|r| - 1] == NatToString(n / 10);
    }
  }

  /** `{}` formatting of an integer. */
  function IntToString(n: int): string
  {
    if n < 0 then "-" + NatToString(-n) else NatToString(n)
  }

  /** The label printed for an elapsed time. */
  function Render(e: Elapsed): string
  {
    match e
    case Seconds(n) => "(" + IntToString(n) + "s ago)"
    case Minutes(n) => "(" + IntToString(n) + "m ago)"
    case Hours(n) => "(" + IntToString(n) + "h ago)"
    case Days(n) => "(" + IntToString(n) + "d ago)"
  }

  /** The four labels the unit tests of display/mod.rs expect. */
  lemma ElapsedExamples(now: int)
    ensures Render(FormatElapsed(now - 30, now)) == "(30s ago)"
    ensures Render(FormatElapsed(now - 120, now)) == "(2m ago)"
    ensures Render(FormatElapsed(now - 3660, now)) == "(1h ago)"
    ensures Render(FormatElapsed(now - 90000, now)) == "(1d ago)"
  {
    assert FormatElapsed(now - 30, now) == Seconds(30);
    assert FormatElapsed(now - 120, now) == Minutes(2);
    assert FormatElapsed(now - 3660, now) == Hours(1);
    assert FormatElapsed(now - 90000, now) == Days(1);
    assert NatToString(30) == "30" by {
      assert NatToString(3) == "3";
    }
  }

  // ---------------------------------------------------------------------------------------
  // Truncation

  /** `truncate(s, max_len)`: `max_len - 3` is an unsigned subtraction with no saturation, so
      the function is only defined when the string fits or `max_len >= 3`. */
  function Truncate(s: string, maxLen: nat): (r: string)
    requires |s| <= maxLen || maxLen >= 3
    ensures |s| <= maxLen ==> r == s
    ensures |s| > maxLen ==> |r| == maxLen && r[..maxLen - 3] == s[..maxLen - 3] && r[maxLen - 3..] == "..."
    ensures |r| <= maxLen
  {
    if |s| <= maxLen then s else s[..maxLen - 3] + "..."
  }

  // ---------------------------------------------------------------------------------------
  // One task line

  /** Width the title column is cut to. */
  const TitleWidth: nat := 60

  /** The badge shown for an agent: a short name for the four known agents, otherwise the
      agent type followed by `:pid` when the process id is known. */
  function Badge(agentType: string, pid: Option<int>): (r: string)
    ensures agentType == "claude_web" ==> r == "claude.ai"
    ensures agentType == "gemini_web" ==> r == "gemini"
    ensures agentType == "claude_code" ==> r == "claude-code"
    ensures agentType == "opencode" ==> r == "opencode"
    ensures agentType != "claude_web" && agentType != "gemini_web" && agentType != "claude_code"
            && agentType != "opencode" ==>
      r == agentType + (if pid.Some? then ":" + IntToString(pid.value) else "")
  {
    var agentLabel := if pid.Some? then agentType + ":" + IntToString(pid.value) else agentType;
    if agentType == "claude_web" then "claude.ai"
    else if agentType == "gemini_web" then "gemini"
    else if agentType == "claude_code" then "claude-code"
    else if agentType == "opencode" then "opencode"
    else agentLabel
  }

  /** What `print_task_summary` shows for one task, before colouring. */
  datatype Summary = Summary(index: nat, status: TaskStatus, badge: string, title: string,
                             elapsed: string, exitCode: Option<int>)

  /** The summary of a task at clock reading `now`: the exit code is shown only for an exited
      task that has one, and the title never exceeds the column. */
  function SummaryOf(index: nat, t: Task, now: int): (r: Summary)
    requires Listable(t.status)
    ensures r.index == index && r.status == t.status
    ensures r.badge == Badge(t.agentType, t.pid)
    ensures r.title == Truncate(t.title, TitleWidth) && |r.title| <= TitleWidth
    ensures |t.title| <= TitleWidth ==> r.title == t.title
    ensures r.elapsed == Render(FormatElapsed(t.updatedAt, now))
    ensures r.exitCode.Some? <==> t.status == Exited && t.exitCode.Some?
    ensures r.exitCode.Some? ==> r.exitCode == t.exitCode
  {
    Summary(index, t.status, Badge(t.agentType, t.pid), Truncate(t.title, TitleWidth),
            Render(FormatElapsed(t.updatedAt, now)),
            if t.status == Exited then t.exitCode else None)
  }

  // ---------------------------------------------------------------------------------------
  // Grouping and numbering of the list

  /** The statuses `display_task_list` has an arm for. */
  predicate Listable(s: TaskStatus)
  {
    s == Running || s == Completed || s == Exited
  }

  /** The tasks of one status, in input order. */
  function WithStatus(tasks: seq<Task>, s: TaskStatus): (r: seq<Task>)
    ensures |r| <= |tasks|
  {
    if tasks == [] then []
    else
      var last := tasks[|tasks| - 1];
      WithStatus(tasks[..|tasks| - 1], s) + (if last.status == s then [last] else [])
  }

  /** A printed line: its number and its task. */
  datatype Line = Line(index: nat, task: Task)

  /** `display_task_list` without the printing: the three groups, filled in input order, and
      the numbered lines, running first, then completed, then exited. */
  method DisplayTaskList(tasks: seq<Task>) returns (running: seq<Task>, completed: seq<Task>,
                                                    exited: seq<Task>, lines: seq<Line>)
    requires forall i :: 0 <= i < |tasks| ==> Listable(tasks[i].status)
    ensures running == WithStatus(tasks, Running)
    ensures completed == WithStatus(tasks, Completed)
    ensures exited == WithStatus(tasks, Exited)
    ensures |lines| == |running| + |completed| + |exited|
    ensures forall i :: 0 <= i < |lines| ==> lines[i].index == i + 1
    ensures forall i :: 0 <= i < |lines| ==> lines[i].task == (running + completed + exited)[i]
  {
    running, completed, exited := [], [], [];
    for i := 0 to |tasks|
      invariant running == WithStatus(tasks[..i], Running)
      invariant completed == WithStatus(tasks[..i], Completed)
      invariant exited == WithStatus(tasks[..i], Exited)
    {
      var task := tasks[i];
      assert tasks[..i + 1][..i] == tasks[..i];
      match task.status {
        case Running => running := running + [task];
        case Completed => completed := completed + [task];
        case Exited => exited := exited + [task];
      }
    }
    assert tasks[..|tasks|] == tasks;
    var firsts := NumberGroup([], running);
    var seconds := NumberGroup(firsts, completed);
    lines := NumberGroup(seconds, exited);
    forall i | 0 <= i < |lines|
      ensures lines[i].index == i + 1 && lines[i].task == (running + completed + exited)[i]
    {
      if i < |seconds| {
        assert lines[i] == lines[..|seconds|][i] == seconds[i];
        if i < |firsts| {
          assert seconds[i] == seconds[..|firsts|][i] == firsts[i];
          assert firsts[0 + i] == Line(0 + i + 1, running[i]);
        } else {
          var k := i - |firsts|;
          assert seconds[|firsts| + k] == Line(|firsts| + k + 1, completed[k]);
        }
      } else {
        var k := i - |seconds|;
        assert lines[|seconds| + k] == Line(|seconds| + k + 1, exited[k]);
      }
    }
  }

  /** One of the `enumerate` loops: appends the tasks of a group to the lines printed so far,
      numbering on from the last line. */
  method NumberGroup(lines: seq<Line>, group: seq<Task>) returns (out: seq<Line>)
    ensures |out| == |lines| + |group|
    ensures out[..|lines|] == lines
    ensures forall i :: 0 <= i < |group| ==> out[|lines| + i] == Line(|lines| + i + 1, group[i])
  {
    var start := |lines|;
    out := lines;
    for idx := 0 to |group|
      invariant |out| == start + idx
      invariant out[..start] == lines
      invariant forall i :: 0 <= i < idx ==> out[start + i] == Line(start + i + 1, group[i])
    {
      out := out + [Line(start + idx + 1, group[idx])];
    }
  }

  /** A task is in the group of its status and in no other. */
  lemma {:induction false} GroupMembers(tasks: seq<Task>, s: TaskStatus, e: Task)
    ensures e in WithStatus(tasks, s) <==> e in tasks && e.status == s
    decreases |tasks|
  {
    if tasks != [] {
      var init := tasks[..|tasks| - 1];
      GroupMembers(init, s, e);
      assert tasks == init + [tasks[|tasks| - 1]];
    }
  }

  /** The tasks in the order the display lists them: running, then completed, then exited. */
  function Shown(tasks: seq<Task>): seq<Task>
  {
    WithStatus(tasks, Running) + WithStatus(tasks, Completed) + WithStatus(tasks, Exited)
  }

  /** The three groups together are a rearrangement of the input when every status is one
      the display knows: nothing is lost and nothing is shown twice. */
  lemma {:induction false} GroupsPartition(tasks: seq<Task>)
    requires forall i :: 0 <= i < |tasks| ==> Listable(tasks[i].status)
    ensures multiset(Shown(tasks)) == multiset(tasks)
    ensures |Shown(tasks)| == |tasks|
    decreases |tasks|
  {
    if tasks != [] {
      var init := tasks[..|tasks| - 1];
      var last := tasks[|tasks| - 1];
      GroupsPartition(init);
      assert Listable(last.status);
      ShownStep(init, last);
      assert tasks == init + [last];
    }
    assert |Shown(tasks)| == |multiset(Shown(tasks))|;
  }

  /** Listing one more task adds it once to what is shown. */
  lemma ShownStep(init: seq<Task>, last: Task)
    requires Listable(last.status)
    ensures multiset(Shown(init + [last])) == multiset(Shown(init)) + multiset{last}
  {
    var tasks := init + [last];
    assert tasks[..|tasks| - 1] == init;
    var r0, c0, e0 := WithStatus(init, Running), WithStatus(init, Completed), WithStatus(init, Exited);
    AppendToGroup(r0, c0, e0, last);
  }

  /** Appending a task to one of three groups adds it once to their joint multiset. */
  lemma AppendToGroup(a: seq<Task>, b: seq<Task>, c: seq<Task>, x: Task)
    ensures multiset((a + [x]) + b + c) == multiset(a + b + c) + multiset{x}
    ensures multiset(a + (b + [x]) + c) == multiset(a + b + c) + multiset{x}
    ensures multiset(a + b + (c + [x])) == multiset(a + b + c) + multiset{x}
  {
  }

  /** Grouping keeps the relative input order: any ordering of the input by a key is also an
      ordering of every group. */
  lemma {:induction false} GroupsKeepOrder(tasks: seq<Task>, s: TaskStatus, key: Task -> int)
    requires Sorting.DescendingBy(tasks, key)
    ensures Sorting.DescendingBy(WithStatus(tasks, s), key)
    decreases |tasks|
  {
    if tasks != [] {
      var init := tasks[..|tasks| - 1];
      var last := tasks[|tasks| - 1];
      GroupsKeepOrder(init, s, key);
      var g := WithStatus(init, s);
      forall e | e in g ensures key(e) >= key(last) {
        GroupMembers(init, s, e);
        var j :| 0 <= j < |init| && init[j] == e;
        assert tasks[j] == e;
      }
    }
  }

  /** The input of the display is the store's listing, newest update first, and so is every
      group. */
  lemma GroupsNewestFirst(tasks: seq<Task>, s: TaskStatus)
    requires Store.ByUpdatedDescending(tasks)
    ensures Store.ByUpdatedDescending(WithStatus(tasks, s))
  {
    GroupsKeepOrder(tasks, s, Store.UpdatedAt);
  }
}
