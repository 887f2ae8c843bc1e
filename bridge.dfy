/** The native messaging host (src/bin/agent-bridge.rs): length-prefixed framing on the byte
    streams, the upsert of one browser message into the store, and the message loop. */
module Bridge {
  import opened Common
  import opened Models
  import opened Store

  // ---------------------------------------------------------------------------------------
  // Framing: a 4-byte little-endian length, then the JSON body

  /** Bodies longer than this (1 MiB) are refused. */
  const MaxMessageLength: nat := 1048576

  const TwoTo32: nat := 0x1_0000_0000

  /** `u32::from_le_bytes`. */
  function DecodeLe32(b: seq<byte>): (n: nat)
    requires |b| == 4
    ensures n < TwoTo32
  {
    b[0] as nat + 256 * (b[1] as nat + 256 * (b[2] as nat + 256 * b[3] as nat))
  }

  /** `u32::to_le_bytes`. */
  function EncodeLe32(n: nat): (b: seq<byte>)
    requires n < TwoTo32
    ensures |b| == 4
  {
    var q1 := n / 256;
    var q2 := q1 / 256;
    var q3 := q2 / 256;
    assert q3 < 256 by {
      assert q1 < 0x100_0000;
      assert q2 < 0x1_0000;
    }
    [(n % 256) as byte, (q1 % 256) as byte, (q2 % 256) as byte, q3 as byte]
  }

  /** Decoding the encoding of a length gives the length back. */
  lemma Le32RoundTrip(n: nat)
    requires n < TwoTo32
    ensures DecodeLe32(EncodeLe32(n)) == n
  {
    var q1 := n / 256;
    var q2 := q1 / 256;
    var q3 := q2 / 256;
    assert n == n % 256 + 256 * q1;
    assert q1 == q1 % 256 + 256 * q2;
    assert q2 == q2 % 256 + 256 * q3;
  }

  /** Encoding the decoding of four bytes gives the bytes back. */
  lemma Le32BytesRoundTrip(b: seq<byte>)
    requires |b| == 4
    ensures EncodeLe32(DecodeLe32(b)) == b
  {
    var q2 := b[2] as nat + 256 * b[3] as nat;
    var q1 := b[1] as nat + 256 * q2;
    var n := b[0] as nat + 256 * q1;
    assert DecodeLe32(b) == n;
    ByteDigit(b[0] as nat, q1);
    ByteDigit(b[1] as nat, q2);
    ByteDigit(b[2] as nat, b[3] as nat);
  }

  /** Splitting off the low byte of a number written as a byte plus 256 times a quotient. */
  lemma ByteDigit(d: nat, q: nat)
    requires d < 256
    ensures (d + 256 * q) % 256 == d && (d + 256 * q) / 256 == q
  {
  }

  datatype ReadError =
    | ShortLength          // fewer than 4 bytes left for the length
    | TooLarge(length: nat) // a length above MaxMessageLength
    | ShortBody            // fewer bytes left than the length announces
    | BadJson              // the body does not parse as a message

  /** The framing part of `read_message` on the bytes left in the input: the body and what
      follows it, or the reason no frame could be read. */
  function ReadFrame(input: seq<byte>): (r: Result<(seq<byte>, seq<byte>), ReadError>)
    ensures r == Err(ShortLength) <==> |input| < 4
    ensures r.Err? && r.error.TooLarge? <==> |input| >= 4 && DecodeLe32(input[..4]) > MaxMessageLength
    ensures r == Err(ShortBody) <==>
      |input| >= 4 && DecodeLe32(input[..4]) <= MaxMessageLength && |input| - 4 < DecodeLe32(input[..4])
    ensures r.Err? ==> !r.error.BadJson?
    ensures r.Ok? ==> |r.value.0| <= MaxMessageLength && |r.value.0| == DecodeLe32(input[..4])
    ensures r.Ok? ==> input == input[..4] + r.value.0 + r.value.1 && |r.value.1| < |input|
  {
    if |input| < 4 then Err(ShortLength)
    else
      var length := DecodeLe32(input[..4]);
      if length > MaxMessageLength then Err(TooLarge(length))
      else if |input| - 4 < length then Err(ShortBody)
      else
        assert input == input[..4] + input[4..4 + length] + input[4 + length..];
        Ok((input[4..4 + length], input[4 + length..]))
  }

  /** `write_message` on the serialised JSON: the length, cast to `u32`, then the body. */
  function WriteFrame(json: seq<byte>): (r: seq<byte>)
    ensures |r| == 4 + |json|
    ensures r[..4] == EncodeLe32(|json| % TwoTo32) && r[4..] == json
  {
    EncodeLe32(|json| % TwoTo32) + json
  }

  /** Reading back a written frame, followed by anything, gives the body and leaves the
      cursor at what follows. */
  lemma FrameRoundTrip(body: seq<byte>, rest: seq<byte>)
    requires |body| <= MaxMessageLength
    ensures ReadFrame(WriteFrame(body) + rest) == Ok((body, rest))
  {
    var input := WriteFrame(body) + rest;
    assert input[..4] == EncodeLe32(|body|);
    Le32RoundTrip(|body|);
    assert input[4..4 + |body|] == body;
    assert input[4 + |body|..] == rest;
  }

  /** Conversely, a frame that reads is the written frame of its body followed by the rest. */
  lemma ReadFrameInverse(input: seq<byte>)
    requires ReadFrame(input).Ok?
    ensures input == WriteFrame(ReadFrame(input).value.0) + ReadFrame(input).value.1
  {
    Le32BytesRoundTrip(input[..4]);
  }

  // ---------------------------------------------------------------------------------------
  // Messages

  datatype MessageContext = MessageContext(
    url: Option<string>,
    conversationId: Option<string>,
    timestamp: Option<int>,
    durationMs: Option<int>)

  datatype IncomingMessage = IncomingMessage(
    msgType: string,
    taskId: string,
    agentType: string,
    status: string,
    title: string,
    context: MessageContext)

  datatype OutgoingMessage = OutgoingMessage(status: string, message: Option<string>)

  /** The JSON decoder is not modelled: `parse` stands for it and yields None for a body that
      is not a well-formed message. */
  type Parser = seq<byte> -> Option<IncomingMessage>

  /** `read_message`: one frame, then its body parsed. */
  function ReadMessage(input: seq<byte>, parse: Parser): (r: Result<(IncomingMessage, seq<byte>), ReadError>)
    ensures r.Ok? <==> ReadFrame(input).Ok? && parse(ReadFrame(input).value.0).Some?
    ensures r.Ok? ==> r.value.0 == parse(ReadFrame(input).value.0).value && r.value.1 == ReadFrame(input).value.1
    ensures r.Ok? ==> |r.value.1| + 4 <= |input|
  {
    match ReadFrame(input)
    case Err(e) => Err(e)
    case Ok((body, rest)) =>
      match parse(body)
      case None => Err(BadJson)
      case Some(m) => Ok((m, rest))
  }

  /** A frame written from a body the parser accepts reads back as that message. */
  lemma MessageRoundTrip(body: seq<byte>, rest: seq<byte>, parse: Parser)
    requires |body| <= MaxMessageLength && parse(body).Some?
    ensures ReadMessage(WriteFrame(body) + rest, parse) == Ok((parse(body).value, rest))
  {
    FrameRoundTrip(body, rest);
  }

  // ---------------------------------------------------------------------------------------
  // process_message

  const WaitingReason: string := "Waiting for user action"

  /** The `extra` map of a new web task: `conversation_id` and `duration_ms` when present. */
  function Extra(c: MessageContext): (m: map<string, Json>)
    ensures "conversation_id" in m <==> c.conversationId.Some?
    ensures "duration_ms" in m <==> c.durationMs.Some?
    ensures c.conversationId.Some? ==> m["conversation_id"] == JString(c.conversationId.value)
    ensures c.durationMs.Some? ==> m["duration_ms"] == JInt(c.durationMs.value)
    ensures m.Keys <= {"conversation_id", "duration_ms"}
  {
    var a := if c.conversationId.Some? then map["conversation_id" := JString(c.conversationId.value)] else map[];
    if c.durationMs.Some? then a["duration_ms" := JInt(c.durationMs.value)] else a
  }

  /** The task a `running` message creates when its `task_id` is unknown. */
  function WebTask(m: IncomingMessage, now: int): Task
  {
    NewTask(m.taskId, m.agentType, m.title, None, None, now)
      .(context := Some(TaskContext(m.context.url, None, None, Extra(m.context))))
  }

  /** The follow-up reopening of an existing task. */
  function Reopen(existing: Task, now: int): (r: Task)
    ensures r.status == Running && r.updatedAt == now && r.completedAt.None?
    ensures r.(status := existing.status, updatedAt := existing.updatedAt, completedAt := existing.completedAt) == existing
  {
    existing.(status := Running, updatedAt := now, completedAt := None)
  }

  /** `process_message` as a function of the table, with the clock reading `now`. */
  function Process(t: Table, m: IncomingMessage, now: int): (r: (Table, Result<(), DbError>))
    ensures r.1.Err? ==> r.0 == t
    ensures r.0.lastRowId >= t.lastRowId
    ensures r.0.rows.Keys == t.rows.Keys || (m.status == "running" && r.0.rows.Keys == t.rows.Keys + {m.taskId})
    ensures forall k :: k in t.rows && k != m.taskId ==> k in r.0.rows && r.0.rows[k] == t.rows[k]
  {
    match m.status
    case "running" =>
      (match Get(t, m.taskId)
       case Err(e) => (t, Err(e))
       case Ok(Some(existing)) => (Update(t, Reopen(existing, now)), Ok(()))
       case Ok(None) =>
         var (t', ins) := Insert(t, WebTask(m, now));
         (t', match ins case Ok(_) => Ok(()) case Err(e) => Err(e)))
    case "completed" =>
      (match Get(t, m.taskId)
       case Err(e) => (t, Err(e))
       case Ok(Some(task)) => (Update(t, Complete(task, Some(0), now)), Ok(()))
       case Ok(None) => (t, Ok(())))
    case "needs_attention" =>
      (match Get(t, m.taskId)
       case Err(e) => (t, Err(e))
       case Ok(Some(task)) => (Update(t, MarkNeedsAttention(task, WaitingReason, now)), Ok(()))
       case Ok(None) => (t, Ok(())))
    case _ => (t, Ok(()))
  }

  /** Every message keeps the table well formed and never lowers the row id counter. */
  lemma ProcessKeepsWellFormed(t: Table, m: IncomingMessage, now: int)
    requires WellFormed(t)
    ensures WellFormed(Process(t, m, now).0)
    ensures Process(t, m, now).0.lastRowId >= t.lastRowId
  {
    var g := Get(t, m.taskId);
    if g.Ok? && g.value.Some? {
      var task := g.value.value;
      if m.status == "running" {
        UpdateKeepsWellFormed(t, Reopen(task, now));
      } else if m.status == "completed" {
        UpdateKeepsWellFormed(t, Complete(task, Some(0), now));
      } else if m.status == "needs_attention" {
        UpdateKeepsWellFormed(t, MarkNeedsAttention(task, WaitingReason, now));
      }
    } else if g.Ok? && m.status == "running" {
      InsertKeepsWellFormed(t, WebTask(m, now));
    }
  }

  /** A `running` follow-up for a readable existing task reopens that same row: status
      running, `updated_at` refreshed, `completed_at` cleared, every other column kept. */
  lemma RunningReopensExisting(t: Table, m: IncomingMessage, now: int)
    requires m.status == "running" && m.taskId in t.rows
    requires FromStr(t.rows[m.taskId].status).Ok?
    ensures var (t', r) := Process(t, m, now);
      && r.Ok? && t'.rows.Keys == t.rows.Keys && t'.lastRowId == t.lastRowId
      && t'.rows[m.taskId] == t.rows[m.taskId].(status := AsStr(Running), updatedAt := now, completedAt := None)
      && (forall k :: k in t.rows && k != m.taskId ==> t'.rows[k] == t.rows[k])
  {
    var existing := RowToTask(m.taskId, t.rows[m.taskId]).value;
    assert ToRow(existing, t.rows[m.taskId].id) == t.rows[m.taskId];
  }

  /** A `running` message for an unknown task inserts exactly one new running row without
      process ids or metadata, carrying the message's URL and its optional conversation id and duration. */
  lemma RunningCreatesTask(t: Table, m: IncomingMessage, now: int)
    requires m.status == "running" && m.taskId !in t.rows
    ensures var (t', r) := Process(t, m, now);
      && r.Ok? && t'.rows.Keys == t.rows.Keys + {m.taskId} && t'.lastRowId == t.lastRowId + 1
      && (forall k :: k in t.rows ==> t'.rows[k] == t.rows[k])
      && var row := t'.rows[m.taskId];
         && row.id == t.lastRowId + 1 && row.status == AsStr(Running)
         && row.agentType == m.agentType && row.title == TruncateTitle(m.title, MaxTitleLength)
         && row.createdAt == now && row.updatedAt == now && row.completedAt.None?
         && row.pid.None? && row.ppid.None? && row.monitorPid.None?
         && row.exitCode.None? && row.attentionReason.None? && row.metadata.None?
         && row.context == Some(TaskContext(m.context.url, None, None, Extra(m.context)))
  {
  }

  /** Delivering the same `running` message twice leaves one running row for its task, with
      no completion time, and the second delivery adds no record. */
  lemma RunningTwiceIsOneRecord(t: Table, m: IncomingMessage, now1: int, now2: int)
    requires WellFormed(t)
    requires m.status == "running"
    requires Process(t, m, now1).1.Ok?
    ensures var t1 := Process(t, m, now1).0;
      var (t2, r2) := Process(t1, m, now2);
      && r2.Ok? && t2.rows.Keys == t1.rows.Keys && t2.lastRowId == t1.lastRowId
      && t2.rows.Keys == t.rows.Keys + {m.taskId}
      && t2.rows[m.taskId].status == AsStr(Running) && t2.rows[m.taskId].completedAt.None?
  {
    var t1 := Process(t, m, now1).0;
    if m.taskId in t.rows {
      RunningReopensExisting(t, m, now1);
    } else {
      RunningCreatesTask(t, m, now1);
    }
    assert t1.rows[m.taskId].status == AsStr(Running);
    StatusRoundTrip(Running);
    RunningReopensExisting(t1, m, now2);
  }

  /** `completed` and `needs_attention` never create a task, and any other status changes
      nothing; both succeed when there is nothing to do. */
  lemma NonRunningTouchesOnlyExisting(t: Table, m: IncomingMessage, now: int)
    requires m.status != "running"
    requires m.taskId !in t.rows || (m.status != "completed" && m.status != "needs_attention")
    ensures Process(t, m, now) == (t, Ok(()))
  {
  }

  /** `completed` on a readable existing task finishes it with exit code 0. */
  lemma CompletedFinishesExisting(t: Table, m: IncomingMessage, now: int)
    requires m.status == "completed" && m.taskId in t.rows
    requires FromStr(t.rows[m.taskId].status).Ok?
    ensures var (t', r) := Process(t, m, now);
      && r.Ok? && t'.rows.Keys == t.rows.Keys
      && t'.rows[m.taskId] == t.rows[m.taskId].(status := AsStr(Completed), exitCode := Some(0),
                                                  completedAt := Some(now), updatedAt := now)
  {
    var existing := RowToTask(m.taskId, t.rows[m.taskId]).value;
    assert ToRow(existing, t.rows[m.taskId].id) == t.rows[m.taskId];
  }

  /** `needs_attention` on a readable existing task flags it with the bridge's fixed reason
      and keeps its completion time and exit code. */
  lemma NeedsAttentionFlagsExisting(t: Table, m: IncomingMessage, now: int)
    requires m.status == "needs_attention" && m.taskId in t.rows
    requires FromStr(t.rows[m.taskId].status).Ok?
    ensures var (t', r) := Process(t, m, now);
      && r.Ok? && t'.rows.Keys == t.rows.Keys
      && t'.rows[m.taskId] == t.rows[m.taskId].(status := AsStr(NeedsAttention),
                                                  attentionReason := Some(WaitingReason), updatedAt := now)
  {
    var existing := RowToTask(m.taskId, t.rows[m.taskId]).value;
    assert ToRow(existing, t.rows[m.taskId].id) == t.rows[m.taskId];
  }

  /** A message of a known status addressed to a row that cannot be read (an Exited row)
      fails and changes nothing. */
  lemma UnreadableRowFails(t: Table, m: IncomingMessage, now: int)
    requires m.status in {"running", "completed", "needs_attention"}
    requires m.taskId in t.rows && FromStr(t.rows[m.taskId].status).Err?
    ensures Process(t, m, now) == (t, Err(InvalidStatus(InvalidStatusMessage(t.rows[m.taskId].status))))
  {
  }

  /** `process_message` on the store. */
  method ProcessMessage(db: Database, m: IncomingMessage, now: int) returns (r: Result<(), DbError>)
    requires db.Valid()
    modifies db`rows, db`lastRowId
    ensures db.Valid()
    ensures (db.State(), r) == Process(old(db.State()), m, now)
  {
    ProcessKeepsWellFormed(db.State(), m, now);
    if m.status == "running" {
      var found := db.GetTaskById(m.taskId);
      match found
      case Err(e) =>
        return Err(e);
      case Ok(Some(existing)) =>
        var existing' := existing.(status := Running, updatedAt := now, completedAt := None);
        r := db.UpdateTask(existing');
      case Ok(None) =>
        var task := NewTask(m.taskId, m.agentType, m.title, None, None, now);
        var extra: map<string, Json> := map[];
        if m.context.conversationId.Some? {
          extra := extra["conversation_id" := JString(m.context.conversationId.value)];
        }
        if m.context.durationMs.Some? {
          extra := extra["duration_ms" := JInt(m.context.durationMs.value)];
        }
        task := task.(context := Some(TaskContext(m.context.url, None, None, extra)));
        assert extra == Extra(m.context);
        assert task == WebTask(m, now);
        var ins := db.InsertTask(task);
        match ins
        case Ok(_) =>
          r := Ok(());
        case Err(e) =>
          r := Err(e);
    } else if m.status == "completed" {
      var found := db.GetTaskById(m.taskId);
      match found
      case Err(e) =>
        return Err(e);
      case Ok(Some(task)) =>
        r := db.UpdateTask(Complete(task, Some(0), now));
      case Ok(None) =>
        r := Ok(());
    } else if m.status == "needs_attention" {
      var found := db.GetTaskById(m.taskId);
      match found
      case Err(e) =>
        return Err(e);
      case Ok(Some(task)) =>
        r := db.UpdateTask(MarkNeedsAttention(task, WaitingReason, now));
      case Ok(None) =>
        r := Ok(());
    } else {
      r := Ok(());
    }
  }

  // ---------------------------------------------------------------------------------------
  // The message loop

  /** The reply to one processed message. */
  function Response(r: Result<(), DbError>): (o: OutgoingMessage)
    ensures o.status == "ok" <==> r.Ok?
    ensures o.status == "error" <==> r.Err?
    ensures r.Ok? ==> o.message.None?
    ensures r.Err? ==> o.message == Some(ErrorMessage(r.error))
  {
    match r
    case Ok(_) => OutgoingMessage("ok", None)
    case Err(e) => OutgoingMessage("error", Some(ErrorMessage(e)))
  }

  /** The clock is not modelled: `clock(i)` is the time at which the i-th message is handled. */
  type Clock = nat -> int

  /** The messages the loop reads from `input` before its first read failure. */
  function Messages(input: seq<byte>, parse: Parser): (r: seq<IncomingMessage>)
    ensures 4 * |r| <= |input|
    decreases |input|
  {
    match ReadMessage(input, parse)
    case Err(_) => []
    case Ok((m, rest)) => [m] + Messages(rest, parse)
  }

  /** What handling one message at a clock reading does: the new table and the result. */
  type Step = (Table, IncomingMessage, int) -> (Table, Result<(), DbError>)

  /** The loop of `main` on the whole input, handling each message with `step`: the final
      table and the replies written, the i-th message being handled at `clock(n + i)`. */
  function Loop(step: Step, t: Table, input: seq<byte>, parse: Parser, clock: Clock, n: nat): (Table, seq<OutgoingMessage>)
    decreases |input|
  {
    match ReadMessage(input, parse)
    case Err(_) => (t, [])
    case Ok((m, rest)) =>
      var (t1, r) := step(t, m, clock(n));
      var (t2, replies) := Loop(step, t1, rest, parse, clock, n + 1);
      (t2, [Response(r)] + replies)
  }

  /** The loop of `main`, each message handled by `process_message`. */
  function Session(t: Table, input: seq<byte>, parse: Parser, clock: Clock, n: nat): (Table, seq<OutgoingMessage>)
  {
    Loop(Process, t, input, parse, clock, n)
  }

  /** Every message read gets exactly one reply, and each reply is an `ok` without a message
      or an `error` with one; the loop ends, without a reply, at the first read failure. */
  lemma {:induction false} OneReplyPerMessage(t: Table, input: seq<byte>, parse: Parser, clock: Clock, n: nat)
    ensures |Session(t, input, parse, clock, n).1| == |Messages(input, parse)|
    ensures forall o :: o in Session(t, input, parse, clock, n).1 ==>
      (o.status == "ok" && o.message.None?) || (o.status == "error" && o.message.Some?)
    decreases |input|
  {
    match ReadMessage(input, parse)
    case Err(_) =>
    case Ok((m, rest)) =>
      var (t1, r) := Process(t, m, clock(n));
      OneReplyPerMessage(t1, rest, parse, clock, n + 1);
  }

  /** The table the loop holds when it reads its i-th message: the first i messages handled
      in order by `step`. */
  function TableBefore(step: Step, t: Table, input: seq<byte>, parse: Parser, clock: Clock, n: nat, i: nat): Table
    decreases i
  {
    if i == 0 then t
    else match ReadMessage(input, parse)
      case Err(_) => t
      case Ok((m, rest)) => TableBefore(step, step(t, m, clock(n)).0, rest, parse, clock, n + 1, i - 1)
  }

  /** The table `main` holds when it reads its i-th message. */
  function StateBefore(t: Table, input: seq<byte>, parse: Parser, clock: Clock, n: nat, i: nat): Table
  {
    TableBefore(Process, t, input, parse, clock, n, i)
  }

  /** For any step, the i-th reply is the response to the i-th message's result on the table
      left by the messages before it. */
  lemma {:induction false} LoopReplyIsResult(step: Step, t: Table, input: seq<byte>, parse: Parser, clock: Clock, n: nat, i: nat)
    requires i < |Messages(input, parse)|
    ensures i < |Loop(step, t, input, parse, clock, n).1|
    ensures Loop(step, t, input, parse, clock, n).1[i]
         == Response(step(TableBefore(step, t, input, parse, clock, n, i), Messages(input, parse)[i], clock(n + i)).1)
    decreases i
  {
    match ReadMessage(input, parse)
    case Err(_) =>
    case Ok((m, rest)) =>
      if i > 0 {
        LoopReplyIsResult(step, step(t, m, clock(n)).0, rest, parse, clock, n + 1, i - 1);
      }
  }

  /** The i-th reply answers the i-th message: it is the response to processing that message
      on the table left by the messages before it, so it is "ok" exactly when that succeeded. */
  lemma ReplyIsResult(t: Table, input: seq<byte>, parse: Parser, clock: Clock, n: nat, i: nat)
    requires i < |Messages(input, parse)|
    ensures i < |Session(t, input, parse, clock, n).1|
    ensures Session(t, input, parse, clock, n).1[i]
         == Response(Process(StateBefore(t, input, parse, clock, n, i), Messages(input, parse)[i], clock(n + i)).1)
    ensures Session(t, input, parse, clock, n).1[i].status == "ok"
        <==> Process(StateBefore(t, input, parse, clock, n, i), Messages(input, parse)[i], clock(n + i)).1.Ok?
  {
    LoopReplyIsResult(Process, t, input, parse, clock, n, i);
  }

  /** The session keeps the table well formed. */
  lemma {:induction false} SessionKeepsWellFormed(t: Table, input: seq<byte>, parse: Parser, clock: Clock, n: nat)
    requires WellFormed(t)
    ensures WellFormed(Session(t, input, parse, clock, n).0)
    decreases |input|
  {
    match ReadMessage(input, parse)
    case Err(_) =>
    case Ok((m, rest)) =>
      ProcessKeepsWellFormed(t, m, clock(n));
      SessionKeepsWellFormed(Process(t, m, clock(n)).0, rest, parse, clock, n + 1);
  }

  /** The message loop of `main` over the bytes of stdin. */
  method Serve(db: Database, input: seq<byte>, parse: Parser, clock: Clock) returns (replies: seq<OutgoingMessage>)
    requires db.Valid()
    modifies db`rows, db`lastRowId
    ensures db.Valid()
    ensures (db.State(), replies) == Session(old(db.State()), input, parse, clock, 0)
  {
    var rest := input;
    var n: nat := 0;
    replies := [];
    ghost var whole := Session(db.State(), input, parse, clock, 0);
    assert whole.1 == replies + whole.1;
    while true
      invariant db.Valid()
      invariant whole.0 == Session(db.State(), rest, parse, clock, n).0
      invariant whole.1 == replies + Session(db.State(), rest, parse, clock, n).1
      decreases |rest|
    {
      match ReadMessage(rest, parse)
      case Err(_) =>
        assert Session(db.State(), rest, parse, clock, n) == (db.State(), []);
        assert replies + [] == replies;
        break;
      case Ok((m, rest')) =>
        ghost var before := db.State();
        var r := ProcessMessage(db, m, clock(n));
        ghost var later := Session(db.State(), rest', parse, clock, n + 1);
        assert Session(before, rest, parse, clock, n) == (later.0, [Response(r)] + later.1);
        assert replies + ([Response(r)] + later.1) == (replies + [Response(r)]) + later.1;
        replies := replies + [Response(r)];
        rest := rest';
        n := n + 1;
    }
  }
}
