# agent-inbox, modelled in Dafny

agent-inbox keeps track of AI agent sessions ("tasks") in a local store. These are
browser chats with claude.ai or Gemini, and command-line agents such as Claude Code or
opencode. Four parts keep that store up to date and show it:

- a task record with a status codec;
- a store on a single `tasks` table keyed by `task_id`;
- a native-messaging bridge. It reads length-prefixed JSON messages from the browser
  extension and inserts or updates tasks from them;
- a process monitor that marks a task when its process disappears, and a terminal view
  that groups and numbers the tasks.

The project models these parts and proves properties about them:

| file | module | models |
|---|---|---|
| `common.dfy` | `Common` | `Option`, `Result`, `byte` |
| `task.dfy` | `Models` | `src/models/task.rs`: `TaskStatus` and its text form, the `Task` record, `Task::new`, `complete`, `needs_attention`, title truncation |
| `sorting.dfy` | `Sorting` | descending order on a key and order-keeping insertion (the `ORDER BY updated_at DESC` of the store) |
| `store.dfy` | `Store` | `src/db/mod.rs`: the table as a map from `task_id` to row plus the AUTOINCREMENT counter. Each SQL statement is a pure function of the table. The class `Database` holds that state and has one method per public operation. Each method is proved equal to its function, except `ListTasks`, which is proved to return a listing satisfying the predicate `IsListing` |
| `bridge.dfy` | `Bridge` | `src/bin/agent-bridge.rs`: 4-byte little-endian framing, `read_message`, `write_message`, `process_message` (as a function of the table and as a module-level method that takes a `Database`), and the message loop of `main` (as a recursive function and as a loop method) |
| `monitor.dfy` | `Monitor` | `src/monitor/mod.rs`: `monitor_task` as a loop over a sequence of observations, each holding what the liveness check answered and the table at that poll |
| `display.dfy` | `Display` | `src/display/mod.rs`: `format_elapsed`, `truncate`, the badge and summary of a task line, and the grouping and numbering done by `display_task_list` |

In this code base the status type has four variants in `task.rs`: `Running`, `Completed`,
`NeedsAttention` and `Failed`. The monitor and the display also use a fifth, `Exited`,
which `task.rs` does not declare. The model adds `Exited` and gives it the text "exited".
It keeps `from_str` exactly as written, which accepts only the four texts of `task.rs`.
The consequence is proved. A row stored as Exited cannot be read back:
`get_task_by_id` fails on it, and so does every unfiltered `list_tasks`. The monitor's
"already exited" test can therefore never fire, and it ends with a read error instead
(`Store.ExitedRowBreaksListing`, `Monitor.ExitedRowEndsInReadError`).

Behaviours the code does not have, and so the model does not have either:

- `process_message` does not validate transitions.
- A `completed` or `needs_attention` message for an unknown task does nothing and
  succeeds. It is not a not-found error.
- The retention sweep deletes only rows whose status text is `completed`, not
  Failed or Exited ones.
- A message that cannot be read or parsed ends the bridge's loop. The connection does
  not stay open.
- The monitor writes `set_exited(None)` only when it cannot find the process. It
  detects nothing else.

## Model

| member | source | states |
|---|---|---|
| Models.AsStr | src/models/task.rs:14-21 | every status has a non-empty text; with `FromStr` it forms the round trip below |
| Models.FromStr | src/models/task.rs:23-31 | succeeds exactly on "running", "completed", "needs_attention" and "failed"; a success is never Exited and encodes back to the input; a failure carries "Invalid task status: " followed by the input |
| Models.StatusRoundTrip | src/models/task.rs:14-31 | decoding the text of any status declared in task.rs gives that status back |
| Models.ExitedNotDecodable | src/models/task.rs:23-31 | the text of Exited is refused by `from_str` |
| Models.AsStrInjective | src/models/task.rs:14-21 | two statuses with the same text are equal |
| Models.TruncateTitle | src/models/task.rs:90-96 | a title that fits is kept as is; a longer one becomes `max(maxLen, 3)` characters, the kept prefix of the title followed by "..." (the cut saturates at zero) |
| Models.LongTitleTruncated | src/models/task.rs:137-149 | a 150-character title becomes 100 characters ending in "..." |
| Models.NewTask | src/models/task.rs:63-88 | a new task is Running, its created and updated times are the clock reading, pid and ppid are as given, every other optional field is empty, and its title is the truncated title, at most 100 characters |
| Models.Complete | src/models/task.rs:98-107 | the result is Failed exactly when the exit code is present and non-zero, and Completed otherwise; it records the code, the completion time and the update time, and no other field changes |
| Models.MarkNeedsAttention | src/models/task.rs:109-113 | the result is NeedsAttention with the given reason and a fresh update time; every other field, completion time and exit code included, is kept |
| Models.CompletionExamples | src/models/task.rs:151-180 | exit code 0 or no code gives Completed; code 1 gives Failed; the code is recorded |
| Sorting.InsertDescending | src/db/mod.rs:188-211 | inserting into a sequence in descending key order adds exactly the new element (as a multiset) and keeps the order |
| Sorting.InsertMembers | src/db/mod.rs:188-211 | the elements after an insertion are the old ones and the inserted one |
| Store.RowToTask | src/db/mod.rs:232-269 | decoding a row fails exactly when its status text does not parse, with that parse error; a success has the row's key, row id and status text, and writing it back gives the same row |
| Store.RowRoundTrip | src/db/mod.rs:94-132 | a written task reads back equal, with its row id, unless its status is Exited, whose row cannot be read |
| Store.Insert | src/db/mod.rs:94-132 | fails exactly on a duplicate `task_id`, leaving the table unchanged; otherwise stores the task's columns under a row id larger than any issued before, returns that id, and keeps every other row |
| Store.Update | src/db/mod.rs:134-171 | rewrites every mutable column of the row with the task's key and keeps its row id and `created_at`; other rows, the key set and the counter are unchanged; an unknown key changes nothing |
| Store.Get | src/db/mod.rs:173-186 | no row reads as `Ok(None)`; an undecodable row reads as an error; otherwise the decoded row |
| Store.Delete | src/db/mod.rs:213-219 | removes exactly the key, keeps other rows and the counter, and reports whether a row was there |
| Store.Cleanup | src/db/mod.rs:221-230 | keeps exactly the rows that are not `completed` with a completion time before `now - secs`, unchanged, and returns the number removed |
| Store.ErrorMessage | src/db/mod.rs:54 | definition: the text each error prints as (the migration error's text is that of line 54); used by `Bridge.Response` |
| Store.ToRow | src/db/mod.rs:107-128 | definition: the columns the INSERT writes; described by `Store.RowRoundTrip` and `Store.RowToTask` |
| Store.UpdateRow | src/db/mod.rs:147-152 | definition: the row after the UPDATE; described by `Store.Update` and `Store.UpdateThenGet` |
| Store.Expired | src/db/mod.rs:225 | definition: the DELETE condition of the sweep; described by `Store.Cleanup`, `Store.CleanupBoundary` and `Store.CleanupSparesOthers` |
| Store.IsListing | src/db/mod.rs:188-211 | definition: a correct answer of `list_tasks`; established by `Store.Database.ListTasks`, used by `Store.ListingHasFilterStatus` and `Store.ExitedRowBreaksListing` |
| Store.InsertKeepsWellFormed | src/db/mod.rs:66-68 | an insert keeps row ids positive, no larger than the counter, and distinct |
| Store.UpdateKeepsWellFormed | src/db/mod.rs:134-171 | so does an update |
| Store.DeleteKeepsWellFormed | src/db/mod.rs:213-219 | so does a delete |
| Store.CleanupKeepsWellFormed | src/db/mod.rs:221-230 | so does the retention sweep |
| Store.InsertThenGet | src/db/mod.rs:309-330 | after inserting a new key, reading it gives the task with its new row id (an Exited task reads as an error) |
| Store.InsertIdsIncrease | src/db/mod.rs:66-67 | ids from two successive inserts are positive and strictly increasing, whatever happened in between |
| Store.CounterNeverDecreases | src/db/mod.rs:66-67 | no statement lowers the AUTOINCREMENT counter |
| Store.UpdateThenGet | src/db/mod.rs:333-352 | after an update of a present key, reading it gives the written task with the stored row id and creation time |
| Store.DeleteThenGet | src/db/mod.rs:390-408 | after a delete the key reads as missing and every other key reads as before |
| Store.CleanupBoundary | src/db/mod.rs:221-230 | a completed row finished exactly at the cutoff survives the sweep; one finished a second earlier is removed |
| Store.CleanupSparesOthers | src/db/mod.rs:221-230 | the sweep never touches a row of another status or one without a completion time |
| Store.ListingHasFilterStatus | src/db/mod.rs:188-196 | with a status filter, every listed task has that status |
| Store.ExitedRowBreaksListing | src/db/mod.rs:205-208 | one row stored as Exited means no unfiltered listing exists |
| Store.Database.Connect | src/db/mod.rs:17 | a connection holds the stored schema version and table |
| Store.Database.Initialize | src/db/mod.rs:28-62 | no version: creates the empty table at version 1, or fails if a tasks table already exists; a version below 1 fails with the migration error; any other version is accepted unchanged; success leaves a valid store |
| Store.Database.InsertTask | src/db/mod.rs:94-132 | the new state and result are those of `Store.Insert` |
| Store.Database.UpdateTask | src/db/mod.rs:134-171 | the new state is that of `Store.Update` and the call succeeds |
| Store.Database.GetTaskById | src/db/mod.rs:173-186 | the result is `Store.Get` of the state |
| Store.Database.ListTasks | src/db/mod.rs:188-211 | fails exactly when some selected row does not decode, with that row's error; otherwise returns one decoded task per selected row and nothing else, newest update first |
| Store.Database.DeleteTask | src/db/mod.rs:213-219 | the new state and result are those of `Store.Delete` |
| Store.Database.CleanupOldCompleted | src/db/mod.rs:221-230 | the new state and count are those of `Store.Cleanup` |
| Bridge.DecodeLe32 | src/bin/agent-bridge.rs:47 | four bytes read little-endian give a value below 2^32 |
| Bridge.EncodeLe32 | src/bin/agent-bridge.rs:68-72 | a 32-bit length is written as four bytes |
| Bridge.Le32RoundTrip | src/bin/agent-bridge.rs:41-81 | decoding the little-endian encoding of a 32-bit length gives it back |
| Bridge.ReadFrame | src/bin/agent-bridge.rs:41-57 | under 4 bytes is a length error; a length above 1048576 is "too large"; fewer bytes than announced is a body error; otherwise the input is the length, a body of exactly that length and the rest, which is shorter than the input |
| Bridge.WriteFrame | src/bin/agent-bridge.rs:66-81 | the output is the body length modulo 2^32, little-endian, then the body |
| Bridge.FrameRoundTrip | src/bin/agent-bridge.rs:39-81 | reading a written frame of at most 1 MiB, followed by anything, gives the body and leaves exactly what followed |
| Bridge.Le32BytesRoundTrip | src/bin/agent-bridge.rs:47 | encoding the decoded value of four bytes gives the bytes back |
| Bridge.ReadFrameInverse | src/bin/agent-bridge.rs:41-81 | conversely, any input a frame is read from is the written frame of its body followed by the rest |
| Bridge.ReadMessage | src/bin/agent-bridge.rs:41-63 | succeeds exactly when a frame is read and its body parses; then returns that message and the rest of the input, at least 4 bytes shorter |
| Bridge.MessageRoundTrip | src/bin/agent-bridge.rs:41-81 | a written frame whose body parses reads back as that message |
| Bridge.Extra | src/bin/agent-bridge.rs:110-117 | the extra context holds `conversation_id` and `duration_ms` exactly when the message has them, with their values, and nothing else |
| Bridge.WebTask | src/bin/agent-bridge.rs:102-124 | definition: the task a `running` message creates; described by `Bridge.RunningCreatesTask` |
| Bridge.Reopen | src/bin/agent-bridge.rs:94-96 | the task becomes running with the new update time and no completion time; no other field changes |
| Bridge.Process | src/bin/agent-bridge.rs:83-158 | a failure leaves the table as it was; the counter never goes down; the key set is unchanged, or gains the message's key for a `running` message; every other task's row is untouched. Each status is described by the lemmas below |
| Bridge.ProcessKeepsWellFormed | src/bin/agent-bridge.rs:83-158 | processing any message keeps the store well formed and never lowers the counter |
| Bridge.RunningReopensExisting | src/bin/agent-bridge.rs:90-99 | `running` for a readable existing task sets the same row to running, refreshes the update time, clears the completion time and keeps everything else |
| Bridge.RunningCreatesTask | src/bin/agent-bridge.rs:100-128 | `running` for an unknown task adds exactly one row with the next id: running, no pids, no monitor pid and no metadata, the truncated title, the clock reading as both times, the message URL and extra context |
| Bridge.RunningTwiceIsOneRecord | src/bin/agent-bridge.rs:89-129 | a `running` message delivered twice leaves one running record for its task, without a completion time |
| Bridge.NonRunningTouchesOnlyExisting | src/bin/agent-bridge.rs:130-157 | `completed` or `needs_attention` for an unknown task, and any unknown status, change nothing and succeed |
| Bridge.CompletedFinishesExisting | src/bin/agent-bridge.rs:130-140 | `completed` for a readable task sets the row to completed, with exit code 0 and the completion and update times |
| Bridge.NeedsAttentionFlagsExisting | src/bin/agent-bridge.rs:141-151 | `needs_attention` for a readable task sets the row's status and the fixed reason, refreshes the update time and keeps all else |
| Bridge.UnreadableRowFails | src/bin/agent-bridge.rs:89-151 | a known status addressed to an undecodable row fails with its decode error and changes nothing |
| Bridge.ProcessMessage | src/bin/agent-bridge.rs:83-158 | on the store, the new state and result are those of `Bridge.Process` |
| Bridge.Response | src/bin/agent-bridge.rs:178-200 | success replies "ok" with no message; failure replies "error" with the error text |
| Bridge.Messages | src/bin/agent-bridge.rs:173-208 | the messages read before the first read failure; each takes at least 4 bytes of input |
| Bridge.Session | src/bin/agent-bridge.rs:173-208 | definition: the loop on the whole input, `Bridge.Loop` with `process_message` as its step; described by `Bridge.OneReplyPerMessage`, `Bridge.ReplyIsResult` and `Bridge.SessionKeepsWellFormed` |
| Bridge.Loop | src/bin/agent-bridge.rs:173-208 | definition: the same loop for any step function; described by `Bridge.LoopReplyIsResult` |
| Bridge.TableBefore | src/bin/agent-bridge.rs:173-178 | definition: the table the loop holds when it reads its i-th message, for any step function; used by `Bridge.LoopReplyIsResult` |
| Bridge.StateBefore | src/bin/agent-bridge.rs:173-178 | definition: `Bridge.TableBefore` with `process_message` as the step; used by `Bridge.ReplyIsResult` |
| Bridge.LoopReplyIsResult | src/bin/agent-bridge.rs:173-200 | for any step, the i-th reply is the response to the i-th message's result on the table left by the messages before it |
| Bridge.ReplyIsResult | src/bin/agent-bridge.rs:178-200 | the i-th reply is the response to `process_message` of the i-th message on the table left by the earlier ones, so it is "ok" exactly when processing that message succeeded |
| Bridge.OneReplyPerMessage | src/bin/agent-bridge.rs:173-208 | the loop writes exactly one reply per message read before the first read failure; it is "ok" without a message or "error" with one |
| Bridge.SessionKeepsWellFormed | src/bin/agent-bridge.rs:173-208 | a whole session keeps the store well formed |
| Bridge.Serve | src/bin/agent-bridge.rs:172-208 | the loop method ends with the state and replies of `Bridge.Session` |
| Monitor.TraceFrom | src/monitor/mod.rs:34-66 | every poll begins with a read of the task; a run that is still watching when the observations run out has made one read per poll and nothing else |
| Monitor.Trace | src/monitor/mod.rs:34-66 | definition: the whole run from the first poll; described by the lemmas below |
| Monitor.AtMostOneFinalWrite | src/monitor/mod.rs:34-66 | over any run the monitor writes at most once; the write is its last store action, and it happens only when the process is gone |
| Monitor.ProcessGoneWritesOnce | src/monitor/mod.rs:36-45 | a poll that finds the process gone writes `set_exited` of the stored task, or nothing when the task is absent, and stops |
| Monitor.ActiveTaskKeepsPolling | src/monitor/mod.rs:47-63 | while the process lives and the task is stored as running, needs-attention or failed, the monitor only reads, once per poll, and does not stop |
| Monitor.AliveStops | src/monitor/mod.rs:47-59 | with the process alive, a deleted task or a completed one stops the monitor without a write |
| Monitor.ExitedRowEndsInReadError | src/monitor/mod.rs:56-58 | a task stored as Exited makes the first poll end in a read error, so the Exited test never fires |
| Monitor.MonitorTask | src/monitor/mod.rs:34-66 | the loop method's actions and outcome are those of `Monitor.Trace` |
| Display.FormatElapsed | src/display/mod.rs:230-243 | picks seconds below 60, minutes below 3600, hours below 86400 and days otherwise; the number shown is the whole count of that unit in the elapsed time (minutes 1-59, hours 1-23) |
| Display.NatToString | src/display/mod.rs:234-242 | a number is written as at least one decimal digit, with no leading zero unless the number is 0 |
| Display.NatToStringRoundTrip | src/display/mod.rs:234-242 | reading the digits back gives the number |
| Display.Render | src/display/mod.rs:234-242 | definition: the label of an elapsed time; described by `Display.ElapsedExamples` and `Display.NatToStringRoundTrip` |
| Display.ElapsedExamples | src/display/mod.rs:257-265 | 30, 120, 3660 and 90000 seconds render as "(30s ago)", "(2m ago)", "(1h ago)" and "(1d ago)" |
| Display.Truncate | src/display/mod.rs:245-251 | a string that fits is kept; a longer one becomes exactly `maxLen` characters, its prefix followed by "..." |
| Display.Badge | src/display/mod.rs:111-125 | the four known agents get their short names; any other agent shows its type, with ":pid" when the pid is known |
| Display.SummaryOf | src/display/mod.rs:127-148 | for a status the line's `match` covers, a task line shows the task's number and status, the task's `Badge`, the title cut by `Truncate` to at most 60 characters (unchanged when it fits), its elapsed label, and the exit code only for an exited task that has one |
| Display.WithStatus | src/display/mod.rs:29-40 | a group is no longer than the input |
| Display.DisplayTaskList | src/display/mod.rs:29-103 | the groups are the running, completed and exited tasks, each in input order; the lines are numbered 1 to n and list the running tasks, then the completed ones, then the exited ones |
| Display.NumberGroup | src/display/mod.rs:77-79 | appending a group keeps the lines already printed and numbers the group's tasks on from the last line, in group order (the same loop is at lines 88-90 and 99-101) |
| Display.Shown | src/display/mod.rs:73-103 | definition: the tasks in listing order, running then completed then exited; described by `Display.GroupsPartition` |
| Display.GroupMembers | src/display/mod.rs:34-40 | a task is in a group exactly when it is in the input with that group's status |
| Display.GroupsPartition | src/display/mod.rs:29-46 | when every status is one the display knows, the tasks shown are a rearrangement of the input, so nothing is lost or shown twice |
| Display.GroupsKeepOrder | src/display/mod.rs:34-40 | every group keeps the relative input order: for any key, an input in descending key order gives groups in descending key order |
| Display.GroupsNewestFirst | src/display/mod.rs:34-40 | a listing ordered newest update first stays so in every group |

## Left out

- Store.Database.Connect: `Database::open` is `Connect` followed by `Initialize`; the model does not combine the two in one member, and the WAL pragma is not modelled.
- SQLite itself: opening files, WAL mode, the `schema_version` table's SQL, indices and locking. The table is a map. Statement failures other than the UNIQUE constraint, the status decode, the existing-schema error and the migration error are not modelled.
- serde: `context` and `metadata` are kept as values. Their JSON encoding and the rule that unparsable stored JSON reads as `None` are not modelled. The bridge's JSON decoder is the `Parser` parameter, and the reply's serialisation is not modelled either.
- Clocks: `Utc::now()` is a parameter (`now`, or `Clock` in the loop). `Task::complete` reads the clock twice; the model uses one reading for both fields. Timestamps are whole seconds, as stored.
- Models.NewTask: pid and ppid are unbounded integers; the 32-bit widths of pid, ppid, monitor_pid and exit_code are not modelled.
- Store.Cleanup: `now - older_than_secs` is exact; the 64-bit overflow of that subtraction is not modelled.
- Store.Database.ListTasks: on failure the model returns the error of some undecodable selected row, not the first one in `updated_at` order. It also does not fix how ties in `updated_at` are ordered, nor does SQLite.
- Store.RowToTask: the out-of-range timestamp panic of `timestamp_opt(..).unwrap()` is not modelled.
- Models.TruncateTitle and Display.Truncate count characters, not UTF-8 bytes; the panic on a cut inside a multi-byte character is not modelled.
- Display.Truncate: requires the string to fit or `maxLen >= 3`; the unsigned underflow panic of `max_len - 3` below that is not modelled. The only caller passes 60.
- Display.DisplayTaskList: requires every status to be Running, Completed or Exited, because its `match` has arms for only those three. Its callers in src/main.rs:32-33 and 43-46 pass listings filtered on NeedsAttention, which this `match` does not cover; the model does not say what happens then.
- Display.SummaryOf: requires the same three statuses, for the same reason (the status `match` at src/display/mod.rs:130-134).
- Display: colour codes, icons, box drawing, the summary line, the "No active tasks" text and `display_task_detail` print fixed text and are not modelled. `format_datetime` is not modelled.
- Bridge: stderr logging, stdout write and flush failures (which would end the loop) and the opening of the database in `main` are not modelled. `eprintln!` has no effect on the model.
- Monitor: `is_process_alive` (a `/proc` lookup) and the 5-second sleep become the `alive` field of each observation. Other processes' writes between polls become per-poll table snapshots. The monitor's own write does not feed back into the store. The body of `set_exited` is not part of this code base and is the `Marker` parameter. The detectors module is not part of this model.
- `default_db_path` and `ensure_data_dir` read the environment and the file system and are not modelled. `src/main.rs` and `src/cli/mod.rs` are callers, outside this model.
- Concurrency between the bridge, monitors and the command line is modelled only through the monitor's snapshots.
