/** Whole runs of one connection: everything it receives, answers and sends, under any schedule. */
module Runs {
  import opened Text
  import opened Commands
  import opened Parsing
  import opened Stuffing
  import opened Streaming
  import opened Mailbox
  import opened Users
  import opened Session
  import opened Replies
  import opened Handlers

  /** One command taken from the queue: the session it found, the surroundings of its last call,
      what it has replied so far, and whether that is all. */
  datatype Entry = Entry(cmd: FullCommand, env: Env, before: Sess, reply: string, after: Sess, done: bool, room: int)

  /** What was received, which commands were taken from the queue, and what was sent. */
  datatype Hist = Hist(pieces: seq<string>, log: seq<Entry>, sent: string)

  datatype State = State(conn: Conn, hist: Hist)

  datatype Event = Readable(recv: Recv) | Writable(env: Env, send: Send)

  const BEGIN: State := State(Accept(VACANT), Hist([], [], ""))

  const BEGIN_SESS: Sess := Sess(AUTHENTICATION, "", None)

  // ---------- one step ----------

  /** The connection as the handler gets it. */
  function Called(c: Conn): Conn
    requires c.processing || Available(c.queue)
  {
    if c.processing then c else c.(queue := c.queue[1..], current := Some(JobOf(c.queue[0])))
  }

  function Added(c: Conn, c': Conn): string {
    if |c.out| <= |c'.out| then c'.out[|c.out|..] else ""
  }

  /** The log after the dispatcher had its turn: a new entry, or more of the last one. */
  function Logged(c: Conn, log: seq<Entry>, env: Env): seq<Entry>
    requires Dispatchable(c)
  {
    if !CanExecute(c) || !(c.processing || Available(c.queue)) then log
    else
      var c' := ExecuteFirstCommand(c, env).conn;
      if c.processing then
        if log == [] then log
        else
          var last := log[|log| - 1];
          log[|log| - 1 := last.(env := env, reply := last.reply + Added(c, c'), after := SessOf(c'),
            done := !c'.processing,
                                 room := RoomAtEnd(c, JobOf(last.cmd)))]
      else
        log + [Entry(c.queue[0], env, SessOf(c), Added(c, c'), SessOf(c'), !c'.processing,
                     RoomAtEnd(Called(c), JobOf(c.queue[0])))]
  }

  function SentBy(c: Conn, send: Send): string {
    if send.Sent? && send.n <= |c.out| then c.out[..send.n] else ""
  }

  function StepState(s: State, e: Event): State
    requires Enabled(s, e)
  {
    match e
    case Readable(recv) =>
      State(ReadFromClient(s.conn, [], recv).conn,
            if recv.Data? then s.hist.(pieces := s.hist.pieces + [recv.piece]) else s.hist)
    case Writable(env, send) =>
      State(HandleWritable(s.conn, env, send).conn,
            s.hist.(log := Logged(s.conn, s.hist.log, env), sent := s.hist.sent + SentBy(Respond(s.conn, env).conn,
              send)))
  }

  /** select reports the socket for what the client state asks for; recv gives 1 to 255 bytes, send takes what it
      likes. */
  ghost predicate Enabled(s: State, e: Event) {
    && s.conn.open && Dispatchable(s.conn)
    && match e
       case Readable(recv) =>
         s.conn.clientState == READING && (recv.Data? ==> 1 <= |recv.piece| <= MAXCOMMANDLENGTH)
       case Writable(env, send) =>
         s.conn.clientState == WRITING && EnvOk(env) && (send.Sent? ==> send.n <= |Respond(s.conn, env).conn.out|)
  }

  ghost predicate IsRun(states: seq<State>, events: seq<Event>) {
    && |states| == |events| + 1 && states[0] == BEGIN
    && forall i | 0 <= i < |events| :: Enabled(states[i], events[i]) && states[i + 1] == StepState(states[i], events[i])
  }

  // ---------- the invariant ----------

  function RepliesOf(log: seq<Entry>): seq<string> {
    seq(|log|, i requires 0 <= i < |log| => log[i].reply)
  }

  function CommandsOf(log: seq<Entry>): seq<FullCommand> {
    seq(|log|, i requires 0 <= i < |log| => log[i].cmd)
  }

  function LastSess(log: seq<Entry>): Sess {
    if log == [] then BEGIN_SESS else log[|log| - 1].after
  }

  /** What was replied so far to a command that goes on, or was cut off when the connection closed. */
  ghost predicate PartOfReply(before: Sess, job: Job, reply: string) {
    && before.store.Some? && job.callback.Some? && job.callback.value.stateNeeded == before.state
    && var mails := before.store.value.mails;
       match job.callback.value.verb
       case RETR =>
         && ValidMailNo(mails, Atoi(job.arg1))
         && var body := mails[Atoi(job.arg1) - 1].body;
            (Intact(body) ==> reply <= MESSAGE_FOLLOWS + Stuff(body))
       case LIST => job.arg1 == "" && reply <= ListHeader(|mails| - CountMarked(mails)) + ListLines(mails, 0)
       case _ => false
  }

  ghost predicate EntryOk(e: Entry) {
    && Parsed(e.cmd) && FromTable([e.cmd])
    && (if e.done then Serves(e.before, JobOf(e.cmd), e.env, e.reply, e.after, e.room)
        else e.after == e.before && PartOfReply(e.before, JobOf(e.cmd), e.reply))
  }

  /** Commands were served one after the other, each in the session the one before it left. */
  ghost predicate LogOk(log: seq<Entry>) {
    && (forall i | 0 <= i < |log| :: EntryOk(log[i]))
    && (forall i | 0 <= i < |log| - 1 :: log[i].done)
    && (forall i | 0 <= i < |log| :: log[i].before == LastSess(log[..i]))
  }

  /** The connection is where its log says: idle between commands, or in the middle of the last one. */
  ghost predicate InStep(c: Conn, log: seq<Entry>) {
    && ConnOk(c) && LogOk(log) && SessOf(c) == LastSess(log)
    && (c.processing <==> log != [] && !log[|log| - 1].done)
    && (c.processing ==>
          var last := log[|log| - 1];
          c.current == Some(JobOf(last.cmd)) && InProgress(c, JobOf(last.cmd), last.reply))
  }

  /** A connection that waits for the client has nothing left to do, and was not told to quit. */
  predicate Quiet(c: Conn) {
    c.clientState == READING ==> c.out == "" && !Available(c.queue) && !c.processing && c.sessionState != UPDATE
  }

  ghost predicate Inv(s: State) {
    var c, h := s.conn, s.hist;
    if c.open then
      && InStep(c, h.log) && Quiet(c) && Ordered(c.queue)
      && GREETING + Concat(RepliesOf(h.log)) == h.sent + c.out
      && CommandsOf(h.log) + c.queue == ReceiveAll([], h.pieces)
    else
      && c == VACANT && LogOk(h.log)
      && h.sent <= GREETING + Concat(RepliesOf(h.log))
      && CommandsOf(h.log) <= ReceiveAll([], h.pieces)
  }

  // ---------- the dispatcher ----------

  lemma AppendEntry(log: seq<Entry>, e: Entry)
    requires LogOk(log) && (log != [] ==> log[|log| - 1].done) && EntryOk(e) && e.before == LastSess(log)
    ensures LogOk(log + [e]) && LastSess(log + [e]) == e.after
    ensures RepliesOf(log + [e]) == RepliesOf(log) + [e.reply] && CommandsOf(log + [e]) == CommandsOf(log) + [e.cmd]
  {
    hide EntryOk, RepliesOf, CommandsOf;
    var log' := log + [e];
    assert forall i | 0 <= i < |log| :: log'[i] == log[i] && log'[..i] == log[..i];
    assert log'[..|log|] == log;
    AppendTexts(log, e);
  }

  lemma AppendTexts(log: seq<Entry>, e: Entry)
    ensures RepliesOf(log + [e]) == RepliesOf(log) + [e.reply] && CommandsOf(log + [e]) == CommandsOf(log) + [e.cmd]
  {
  }

  lemma ReplaceLast(log: seq<Entry>, e: Entry)
    requires log != [] && LogOk(log)
    requires EntryOk(e) && e.before == log[|log| - 1].before && e.cmd == log[|log| - 1].cmd
    ensures var log' := log[|log| - 1 := e];
            && LogOk(log') && LastSess(log') == e.after
            && RepliesOf(log') == RepliesOf(log[..|log| - 1]) + [e.reply] && CommandsOf(log') == CommandsOf(log)
    ensures RepliesOf(log) == RepliesOf(log[..|log| - 1]) + [log[|log| - 1].reply]
  {
    hide EntryOk;
    var log' := log[|log| - 1 := e];
    assert forall i | 0 <= i < |log| :: log'[..i] == log[..i];
  }

  lemma MoreReply(before: seq<string>, reply: string, more: string)
    ensures Concat(before + [reply + more]) == Concat(before + [reply]) + more
  {
    ConcatAppend(before, reply + more);
    ConcatAppend(before, reply);
  }

  /** The connection keeps step with its log, and what is added to one is added to the other. */
  ghost predicate Stepped(c: Conn, log: seq<Entry>, c': Conn, log': seq<Entry>) {
    && InStep(c', log') && c.out <= c'.out && c'.open == c.open && c'.clientState == c.clientState
    && Concat(RepliesOf(log')) == Concat(RepliesOf(log)) + c'.out[|c.out|..]
    && CommandsOf(log') + c'.queue == CommandsOf(log) + c.queue
    && (Ordered(c.queue) ==> Ordered(c'.queue))
  }

  lemma InProgressIsPart(c: Conn, job: Job, reply: string)
    requires InProgress(c, job, reply) && job.callback.Some? && InTable(job.callback.value)
             && Allowed(c, job.callback.value)
    ensures PartOfReply(SessOf(c), job, reply)
  {
    hide Stuff, Intact, Left, ListLines, ListHeader, CountMarked, Reading, Atoi;
    TableNeeds(job.callback.value);
  }

  /** What a handler left, with the flag the dispatcher sets. */
  lemma AfterHandler(before: Sess, c: Conn, job: Job, env: Env, reply: string)
    requires Callable(before, c, job, env, reply) && c.current == Some(job)
    ensures var h := Execute(c, job, env);
            var c' := h.conn.(processing := h.status == NOT_FINISHED);
            && Handles(before, c, job, env, reply, h) && ConnOk(c') && SessOf(c') == SessOf(h.conn)
            && (c'.processing ==>
                  && InProgress(c', job, reply + h.conn.out[|c.out|..])
                  && PartOfReply(SessOf(c'), job, reply + h.conn.out[|c.out|..]))
  {
    hide Execute, Serves, InTable, CacheOk, FromTable, PartOfReply;
    EveryHandler(before, c, job, env, reply);
    var h := Execute(c, job, env);
    if h.status == NOT_FINISHED {
      InProgressIsPart(h.conn.(processing := true), job, reply + h.conn.out[|c.out|..]);
    }
  }

  lemma ResumeSteps(c: Conn, log: seq<Entry>, env: Env)
    requires InStep(c, log) && EnvOk(env) && CanExecute(c) && c.processing
    ensures Stepped(c, log, ExecuteFirstCommand(c, env).conn, Logged(c, log, env))
  {
    hide Execute, Serves, InTable, CacheOk, FromTable, LogOk, InProgress, CommandsOf, RepliesOf, RoomAtEnd, Ordered,
      PartOfReply;
    var last := log[|log| - 1];
    var job := JobOf(last.cmd);
    LastEntry(log);
    AfterHandler(last.before, c, job, env, last.reply);
    var h := Execute(c, job, env);
    var c' := ExecuteFirstCommand(c, env).conn;
    var e := last.(env := env, reply := last.reply + c'.out[|c.out|..], after := SessOf(c'), done := !c'.processing,
      room := RoomAtEnd(c, job));
    ReplaceLast(log, e);
    MoreReply(RepliesOf(log[..|log| - 1]), last.reply, c'.out[|c.out|..]);
  }

  lemma LastEntry(log: seq<Entry>)
    requires LogOk(log) && log != []
    ensures EntryOk(log[|log| - 1])
  {
  }

  lemma ErrorServed(c: Conn, env: Env, message: string)
    requires !c.processing && Available(c.queue)
    requires var callback := c.queue[0].executeCommand;
             message == if callback == None then INVALID_COMMAND else INVALID_STATE
    requires c.queue[0].executeCommand.Some? ==> !Allowed(c, c.queue[0].executeCommand.value)
    ensures Serves(SessOf(c), JobOf(c.queue[0]), env, message, SessOf(c), RoomAtEnd(Called(c), JobOf(c.queue[0])))
  {
    hide RoomAtEnd;
  }

  lemma QueueTail(log: seq<Entry>, c: Conn, e: Entry)
    requires c.queue != [] && e.cmd == c.queue[0]
    ensures CommandsOf(log + [e]) + c.queue[1..] == CommandsOf(log) + c.queue
    ensures Ordered(c.queue) ==> Ordered(c.queue[1..])
    ensures FromTable(c.queue) ==> FromTable(c.queue[1..]) && FromTable([c.queue[0]])
  {
    assert c.queue == [c.queue[0]] + c.queue[1..];
    assert CommandsOf(log + [e]) == CommandsOf(log) + [e.cmd];
    assert CommandsOf(log) + [e.cmd] + c.queue[1..] == CommandsOf(log) + ([c.queue[0]] + c.queue[1..]);
  }

  /** A new entry at the end of the log, for the first command of the queue. */
  lemma NewEntrySteps(c: Conn, log: seq<Entry>, c': Conn, e: Entry)
    requires InStep(c, log) && !c.processing && Available(c.queue)
    requires ConnOk(c') && c.out <= c'.out && c'.open == c.open && c'.clientState == c.clientState
             && c'.queue == c.queue[1..]
    requires e.cmd == c.queue[0] && e.before == SessOf(c) && e.reply == c'.out[|c.out|..] && e.after == SessOf(c')
    requires EntryOk(e) && (c'.processing <==> !e.done)
    requires c'.processing ==> c'.current == Some(JobOf(e.cmd)) && InProgress(c', JobOf(e.cmd), e.reply)
    ensures Stepped(c, log, c', log + [e])
  {
    hide Serves, LogOk, InProgress, CommandsOf, RepliesOf, Ordered, ConnOk, EntryOk, FromTable;
    AppendEntry(log, e);
    QueueTail(log, c, e);
    ConcatAppend(RepliesOf(log), e.reply);
  }

  lemma ErrorSteps(c: Conn, log: seq<Entry>, env: Env, message: string)
    requires InStep(c, log) && CanExecute(c) && !c.processing && Available(c.queue)
    requires message == if c.queue[0].executeCommand == None then INVALID_COMMAND else INVALID_STATE
    requires c.queue[0].executeCommand.Some? ==> !Allowed(c, c.queue[0].executeCommand.value)
    ensures Stepped(c, log, ExecuteFirstCommand(c, env).conn, Logged(c, log, env))
  {
    hide Serves, LogOk, InProgress, CommandsOf, RepliesOf, RoomAtEnd, Ordered, InTable, CacheOk, FromTable, PartOfReply;
    var c' := ExecuteFirstCommand(c, env).conn;
    var job := JobOf(c.queue[0]);
    var e := Entry(c.queue[0], env, SessOf(c), message, SessOf(c), true, RoomAtEnd(Called(c), job));
    assert c'.out == c.out + message && c'.out[|c.out|..] == message;
    ErrorServed(c, env, message);
    QueueTail(log, c, e);
    NewEntrySteps(c, log, c', e);
  }

  lemma StartSteps(c: Conn, log: seq<Entry>, env: Env)
    requires InStep(c, log) && EnvOk(env) && CanExecute(c) && !c.processing && Available(c.queue)
    requires c.queue[0].executeCommand.Some? && Allowed(c, c.queue[0].executeCommand.value)
    ensures Stepped(c, log, ExecuteFirstCommand(c, env).conn, Logged(c, log, env))
  {
    hide Execute, Serves, LogOk, InProgress, CommandsOf, RepliesOf, RoomAtEnd, Ordered, InTable, CacheOk, PartOfReply;
    var called, job := Called(c), JobOf(c.queue[0]);
    var before := SessOf(c);
    AfterHandler(before, called, job, env, "");
    var h := Execute(called, job, env);
    var c' := ExecuteFirstCommand(c, env).conn;
    assert "" + c'.out[|c.out|..] == c'.out[|c.out|..];
    var e := Entry(c.queue[0], env, before, c'.out[|c.out|..], SessOf(c'), !c'.processing, RoomAtEnd(called, job));
    NewEntrySteps(c, log, c', e);
  }

  /** Whatever the dispatcher finds, it keeps the connection in step with its log. */
  lemma RespondSteps(c: Conn, log: seq<Entry>, env: Env)
    requires InStep(c, log) && EnvOk(env)
    ensures Stepped(c, log, Respond(c, env).conn, Logged(c, log, env))
  {
    hide Execute, Serves, LogOk, InProgress, CommandsOf, RepliesOf, RoomAtEnd, Ordered, InTable, CacheOk, FromTable,
      InStep;
    if !CanExecute(c) || !(c.processing || Available(c.queue)) {
      assert Concat(RepliesOf(log)) + c.out[|c.out|..] == Concat(RepliesOf(log));
    } else if c.processing {
      ResumeSteps(c, log, env);
    } else if c.queue[0].executeCommand.Some? && Allowed(c, c.queue[0].executeCommand.value) {
      StartSteps(c, log, env);
    } else {
      ErrorSteps(c, log, env, if c.queue[0].executeCommand == None then INVALID_COMMAND else INVALID_STATE);
    }
  }

  // ---------- every step ----------

  lemma BeginInv()
    ensures Inv(BEGIN)
  {
    assert CommandsOf([]) + [] == [];
    assert GREETING + Concat(RepliesOf([])) == "" + GREETING;
    var c := BEGIN.conn;
    assert c.out == GREETING && |GREETING| <= BUFFERSIZE;
  }

  lemma {:induction false} ReceiveAllAppend(queue: seq<FullCommand>, pieces: seq<string>, piece: string)
    ensures ReceiveAll(queue, pieces + [piece]) == Receive(ReceiveAll(queue, pieces), piece)
    decreases |pieces|
  {
    hide Receive;
    if pieces == [] {
      assert [piece][1..] == [];
    } else {
      assert (pieces + [piece])[0] == pieces[0] && (pieces + [piece])[1..] == pieces[1..] + [piece];
      ReceiveAllAppend(Receive(queue, pieces[0]), pieces[1..], piece);
    }
  }

  lemma CommandsParsed(log: seq<Entry>)
    requires LogOk(log)
    ensures AllParsed(CommandsOf(log))
  {
  }

  /** Closing keeps what was sent and what was served. */
  lemma Closes(s: State, s': State)
    requires s'.conn == VACANT && LogOk(s'.hist.log)
    requires s'.hist.sent <= GREETING + Concat(RepliesOf(s'.hist.log))
    requires CommandsOf(s'.hist.log) <= ReceiveAll([], s'.hist.pieces)
    ensures Inv(s')
  {
  }

  lemma ReadableInv(s: State, recv: Recv)
    requires Inv(s) && Enabled(s, Readable(recv))
    ensures Inv(StepState(s, Readable(recv)))
  {
    hide LogOk, Receive, CommandsOf, RepliesOf, InTable, CacheOk, FromTable, Ordered;
    var c, h := s.conn, s.hist;
    match recv
    case ReceiveError =>
    case EndOfStream =>
      assert h.sent <= GREETING + Concat(RepliesOf(h.log));
      assert CommandsOf(h.log) <= ReceiveAll([], h.pieces);
    case Data(piece) =>
      CommandsParsed(h.log);
      ReceiveAllAppend([], h.pieces, piece);
      ReceiveAfter(CommandsOf(h.log), c.queue, piece);
      ReceiveFromTable(c.queue, piece);
      ReceiveOrdered(c.queue, piece);
  }

  /** The bytes taken by send are the oldest ones, and the rest stays in order. */
  lemma SendKeepsStream(c: Conn, users: seq<User>, n: nat)
    requires |c.out| <= BUFFERSIZE && n <= |c.out|
    ensures var t := WriteToClient(c, users, Sent(n));
            && t.users == users && t.conn.out == c.out[n..]
            && t.conn == c.(out := c.out[n..], clientState := t.conn.clientState)
            && t.conn.clientState ==
               (if c.out[n..] == "" && !Available(c.queue) && !c.processing then READING else c.clientState)
            && SentBy(c, Sent(n)) + t.conn.out == c.out
  {
    hide Available, CloseClient, Write;
    PutBack(c, c.out[n..]);
  }

  lemma PutBack(c: Conn, tail: string)
    requires |tail| <= BUFFERSIZE
    ensures Write(c.(out := ""), tail) == c.(out := tail)
  {
    assert "" + tail == tail;
  }

  lemma WritableSent(s: State, env: Env, n: nat)
    requires Inv(s) && Enabled(s, Writable(env, Sent(n)))
    ensures Inv(StepState(s, Writable(env, Sent(n))))
  {
    hide LogOk, Receive, CommandsOf, RepliesOf, InTable, CacheOk, FromTable, Ordered, ExecuteFirstCommand, InProgress,
      Logged;
    var c, h := s.conn, s.hist;
    RespondSteps(c, h.log, env);
    var c1, log1 := Respond(c, env).conn, Logged(c, h.log, env);
    SendKeepsStream(c1, Respond(c, env).users, n);
    var c2 := WriteToClient(c1, Respond(c, env).users, Sent(n)).conn;
    var s' := StepState(s, Writable(env, Sent(n)));
    StreamGrows(h.sent, c.out, c1.out, Concat(RepliesOf(h.log)), Concat(RepliesOf(log1)), SentBy(c1, Sent(n)), c2.out);
    InStepSameOut(c1, c2, log1);
    if c2.clientState == READING && c2.sessionState == UPDATE {
      assert s'.conn == VACANT by {
        assert !c2.crashed;
      }
      Closes(s, s');
    }
  }

  lemma StreamGrows(sent: string, out: string, out1: string, replies: string, replies1: string, now: string,
                    out2: string)
    requires GREETING + replies == sent + out && out <= out1 && replies1 == replies + out1[|out|..]
             && now + out2 == out1
    ensures GREETING + replies1 == sent + now + out2
  {
    assert out1 == out + out1[|out|..];
    assert GREETING + (replies + out1[|out|..]) == (GREETING + replies) + out1[|out|..];
    assert (sent + out) + out1[|out|..] == sent + (out + out1[|out|..]);
    assert sent + (now + out2) == sent + now + out2;
  }

  lemma InStepSameOut(c: Conn, c': Conn, log: seq<Entry>)
    requires InStep(c, log) && |c'.out| <= BUFFERSIZE && c' == c.(out := c'.out, clientState := c'.clientState)
    ensures InStep(c', log)
  {
    hide LogOk, InTable, FromTable;
  }

  /** When nothing is offered to send, send does not fail. */
  lemma NothingOffered(s: State, env: Env)
    requires Enabled(s, Writable(env, SendFailed))
    ensures Enabled(s, Writable(env, Sent(0)))
    ensures Respond(s.conn, env).conn.out == "" ==>
              StepState(s, Writable(env, SendFailed)) == StepState(s, Writable(env, Sent(0)))
  {
    hide Respond, Logged;
  }

  lemma WritableFailed(s: State, env: Env)
    requires Inv(s) && Enabled(s, Writable(env, SendFailed))
    ensures Inv(StepState(s, Writable(env, SendFailed)))
  {
    hide LogOk, Receive, CommandsOf, RepliesOf, InTable, CacheOk, FromTable, Ordered, ExecuteFirstCommand, InProgress,
      Logged;
    var c, h := s.conn, s.hist;
    var c1, log1 := Respond(c, env).conn, Logged(c, h.log, env);
    if c1.out == "" {
      NothingOffered(s, env);
      WritableSent(s, env, 0);
    } else {
      RespondSteps(c, h.log, env);
      StreamGrows(h.sent, c.out, c1.out, Concat(RepliesOf(h.log)), Concat(RepliesOf(log1)), "", c1.out);
      assert h.sent <= GREETING + Concat(RepliesOf(log1));
    }
  }

  /** Every step keeps the invariant. */
  lemma StepInv(s: State, e: Event)
    requires Inv(s) && Enabled(s, e)
    ensures Inv(StepState(s, e))
  {
    hide Inv, Enabled, StepState;
    match e
    case Readable(recv) => ReadableInv(s, recv);
    case Writable(env, send) =>
      match send
      case Sent(n) => WritableSent(s, env, n);
      case SendFailed => WritableFailed(s, env);
  }

  lemma {:induction false} RunInv(states: seq<State>, events: seq<Event>, k: nat)
    requires IsRun(states, events) && k < |states|
    ensures Inv(states[k])
  {
    hide Inv, Enabled, StepState;
    if k == 0 {
      BeginInv();
    } else {
      RunInv(states, events, k - 1);
      StepInv(states[k - 1], events[k - 1]);
    }
  }
}
