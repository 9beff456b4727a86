/** What a client can count on, whatever the schedule: consequences of the invariant of all runs. */
module Guarantees {
  import opened Text
  import opened Commands
  import opened Parsing
  import opened Fragmentation
  import opened Stuffing
  import opened Streaming
  import opened Framing
  import opened Mailbox
  import opened Users
  import opened Session
  import opened Replies
  import opened Runs
  import opened Dialogues

  // ---------- space and liveness ----------

  /** The ring is never overrun, so the branch that ends the server is never taken. */
  lemma NeverOverflows(states: seq<State>, events: seq<Event>, k: nat)
    requires IsRun(states, events) && k < |states|
    ensures !states[k].conn.crashed && |states[k].conn.out| <= BUFFERSIZE
  {
    hide IsRun, InStep;
    RunInv(states, events, k);
    if states[k].conn.open {
      InStepSpace(states[k].conn, states[k].hist.log);
    }
  }

  lemma InStepSpace(c: Conn, log: seq<Entry>)
    requires InStep(c, log)
    ensures !c.crashed && |c.out| <= BUFFERSIZE && Dispatchable(c)
  {
    hide LogOk, FromTable;
  }

  /** An open connection waits for the client exactly while it has nothing to send, to run or to go on with,
      and the step its client state calls for can be taken. */
  lemma NeverStalls(states: seq<State>, events: seq<Event>, k: nat, env: Env)
    requires IsRun(states, events) && k < |states| && states[k].conn.open && EnvOk(env)
    ensures var c := states[k].conn;
            && (c.out != "" || Available(c.queue) || c.processing ==> c.clientState == WRITING)
            && Enabled(states[k], if c.clientState == READING then Readable(EndOfStream) else Writable(env, Sent(0)))
            && (c.clientState == READING ==> forall i | 0 <= i < |c.queue| :: !Parsed(c.queue[i]))
  {
    hide IsRun, InStep, Respond;
    RunInv(states, events, k);
    InStepSpace(states[k].conn, states[k].hist.log);
  }

  // ---------- order ----------

  /** Commands leave the queue once each, in the order of their arrival; each is answered before the next is taken,
      with the reply it is owed in the session that its predecessor left; and the client is sent the greeting and the
      answers in that order, without a gap. */
  lemma AnswersInOrder(states: seq<State>, events: seq<Event>, k: nat)
    requires IsRun(states, events) && k < |states|
    ensures var c, h := states[k].conn, states[k].hist;
            && h.sent <= GREETING + Concat(RepliesOf(h.log))
            && (c.open ==> h.sent + c.out == GREETING + Concat(RepliesOf(h.log)))
            && CommandsOf(h.log) <= ReceiveAll([], h.pieces)
            && (c.open ==> CommandsOf(h.log) + c.queue == ReceiveAll([], h.pieces))
            && LogOk(h.log)
  {
    hide IsRun, ReceiveAll, CommandsOf, RepliesOf;
    RunInv(states, events, k);
  }

  /** A client that sends commands line by line has them served as it sent them, however the lines were cut and
      whatever the receive buffer held behind the pieces: at every moment of the transfer the commands served are a
      beginning of those sent, and once everything has arrived those served and those queued are all of them. */
  lemma PipelinedAsSent(states: seq<State>, events: seq<Event>, k: nat, rs: seq<Request>, pieces: seq<string>)
    requires IsRun(states, events) && k < |states|
    requires (forall i | 0 <= i < |rs| :: ValidRequest(rs[i])) && Concat(pieces) <= Lines(rs)
    requires |states[k].hist.pieces| == |pieces|
    requires forall i | 0 <= i < |pieces| :: Carries(states[k].hist.pieces[i], pieces[i])
    ensures CommandsOf(states[k].hist.log) <= ExpectedAll(rs)
    ensures states[k].conn.open && Concat(pieces) == Lines(rs) ==>
              CommandsOf(states[k].hist.log) + states[k].conn.queue == ExpectedAll(rs)
  {
    hide IsRun, ReceiveAll, CommandsOf, RepliesOf, Lines, ExpectedAll, ValidRequest, Concat, LogOk, Carries,
      Parsing.Step, Sound;
    AnswersInOrder(states, events, k);
    var buffers, served := states[k].hist.pieces, CommandsOf(states[k].hist.log);
    ServedAreParsed(states[k].hist.log);
    var rest := Lines(rs)[|Concat(pieces)|..];
    assert Concat(pieces) + rest == Lines(rs);
    FoldLines([], rs);
    SoundAppend(Parser([], false), Concat(pieces), rest);
    assert forall i | 0 <= i < |Concat(pieces)| :: Concat(pieces)[i] == Lines(rs)[i];
    OlderBytesUnread([], buffers, pieces);
    ServedPrefix(pieces, rest, rs, served);
    if Concat(pieces) == Lines(rs) {
      PrintParse(rs, pieces);
    }
  }

  lemma ServedAreParsed(log: seq<Entry>)
    requires LogOk(log)
    ensures AllParsed(CommandsOf(log))
  {
    hide FromTable, Serves, PartOfReply;
    forall i | 0 <= i < |log|
      ensures Parsed(CommandsOf(log)[i])
    {
      assert EntryOk(log[i]);
    }
  }

  /** Commands parsed from the first part of a stream of lines are the first of all. */
  lemma ServedPrefix(pieces: seq<string>, rest: string, rs: seq<Request>, served: seq<FullCommand>)
    requires (forall i | 0 <= i < |rs| :: ValidRequest(rs[i])) && Concat(pieces) + rest == Lines(rs)
    requires served <= ReceiveAll([], pieces) && AllParsed(served)
    ensures served <= ExpectedAll(rs)
  {
    hide ReceiveAll, Receive, Lines, ExpectedAll, ValidRequest, Concat;
    ConcatAppend(pieces, rest);
    PrintParse(rs, pieces + [rest]);
    ReceiveAllAppend([], pieces, rest);
    var queue := ReceiveAll([], pieces)[|served|..];
    assert ReceiveAll([], pieces) == served + queue;
    ReceiveAfter(served, queue, rest);
  }

  // ---------- retrieved mails ----------

  /** Entry `i` asks for a mail that stands, and `body` is the file of that number in the mailbox of the connection's
      login. */
  ghost predicate Retrieves(log: seq<Entry>, i: nat, login: nat, body: string) {
    && i < |log| && OpenedBy(log[..i], login) && Requested(log[i].cmd) == Some(RETR)
    && var d, n := DialogueOf(log[..i]), Atoi(log[i].cmd.arg1);
       && d.phase == TRANSACTION && Standing(d, n) && n <= |log[login].env.mailbox|
       && body == log[login].env.mailbox[n - 1]
  }

  /** So does any RETR of a number that is not marked, in a connection that has logged in. */
  lemma RetrFinds(states: seq<State>, events: seq<Event>, k: nat, i: nat)
    requires IsRun(states, events) && k < |states| && i < |states[k].hist.log|
    requires var log := states[k].hist.log;
             && Requested(log[i].cmd) == Some(RETR) && DialogueOf(log[..i]).phase == TRANSACTION
             && Standing(DialogueOf(log[..i]), Atoi(log[i].cmd.arg1))
    ensures exists login: nat, body :: Retrieves(states[k].hist.log, i, login, body)
  {
    hide IsRun, DialogueOf, Requested, Atoi, LogOk, OpenedBy, Retrieves;
    var log := states[k].hist.log;
    LogOfRun(states, events, k);
    LogPrefix(log, i);
    var login := TransactionHasLogin(log[..i]);
    RetrievesFrom(log, i, login);
  }

  lemma RetrievesFrom(log: seq<Entry>, i: nat, login: nat)
    requires i < |log| && OpenedBy(log[..i], login) && Requested(log[i].cmd) == Some(RETR)
    requires DialogueOf(log[..i]).phase == TRANSACTION && Standing(DialogueOf(log[..i]), Atoi(log[i].cmd.arg1))
    ensures exists body :: Retrieves(log, i, login, body)
  {
    hide DialogueOf, Requested, Atoi, OpenedBy;
    LoginMailbox(log, i, login);
    assert Retrieves(log, i, login, log[login].env.mailbox[Atoi(log[i].cmd.arg1) - 1]);
  }

  lemma LoginMailbox(log: seq<Entry>, i: nat, login: nat)
    requires i <= |log| && OpenedBy(log[..i], login)
    ensures login < |log| && DialogueOf(log[..i]).mailbox == log[login].env.mailbox
  {
    hide DialogueOf, Welcomed;
    assert log[..i][login] == log[login];
  }

  lemma LogOfRun(states: seq<State>, events: seq<Event>, k: nat)
    requires IsRun(states, events) && k < |states|
    ensures LogOk(states[k].hist.log)
  {
    hide IsRun, EntryOk, ReceiveAll, CommandsOf, RepliesOf, ConnOk;
    RunInv(states, events, k);
  }

  /** The entry found that mail in its session. */
  ghost predicate Found(e: Entry, body: string) {
    && e.cmd.executeCommand.Some? && e.cmd.executeCommand.value.verb == RETR
    && e.cmd.executeCommand.value.stateNeeded == e.before.state && e.before.store.Some?
    && var mails, n := e.before.store.value.mails, Atoi(e.cmd.arg1);
       ValidMailNo(mails, n) && body == mails[n - 1].body
  }

  lemma RetrievesFound(states: seq<State>, events: seq<Event>, k: nat, i: nat, login: nat, body: string)
    requires IsRun(states, events) && k < |states| && Retrieves(states[k].hist.log, i, login, body)
    ensures Found(states[k].hist.log[i], body)
  {
    hide IsRun, DialogueOf, VerbNamed, Atoi, Welcomed, EntryOk;
    var log := states[k].hist.log;
    Conversation(states, events, k, i);
    LogOfRun(states, events, k);
    LogPrefix(log, i);
    RequestIsEntry(log[i]);
    assert log[..i][login] == log[login];
    StandingIsValid(log[i].before.store.value.mails, DialogueOf(log[..i]), Atoi(log[i].cmd.arg1));
  }

  /** However often it was suspended, what RETR has put in the stream is a beginning of the status line, the stuffed
      file and the terminator; and a RETR that has ended gave all of it exactly if five bytes were free after the last
      piece. */
  lemma RetrEndToEnd(states: seq<State>, events: seq<Event>, k: nat, i: nat, login: nat, body: string)
    requires IsRun(states, events) && k < |states|
    requires Retrieves(states[k].hist.log, i, login, body) && Intact(body)
    ensures var e := states[k].hist.log[i];
            && e.reply <= MESSAGE_FOLLOWS + Stuff(body) + MAIL_END
            && (e.done ==> (e.reply == MESSAGE_FOLLOWS + Stuff(body) + MAIL_END <==> e.room >= |MAIL_END|))
  {
    hide IsRun, Stuff, Intact, ReceiveAll, CommandsOf, RepliesOf, InStep, Retrieves, Found;
    RetrievesFound(states, events, k, i, login, body);
    RunInv(states, events, k);
    var log := states[k].hist.log;
    assert i < |log| by {
      RetrievesInLog(log, i, login, body);
    }
    EntryOfLog(states[k], i);
    RetrEntry(log[i], body);
  }

  lemma RetrievesInLog(log: seq<Entry>, i: nat, login: nat, body: string)
    requires Retrieves(log, i, login, body)
    ensures i < |log|
  {
  }

  lemma EntryOfLog(s: State, i: nat)
    requires Inv(s) && i < |s.hist.log|
    ensures LogOk(s.hist.log) && EntryOk(s.hist.log[i])
  {
    hide EntryOk, ReceiveAll, CommandsOf, RepliesOf, ConnOk;
  }

  lemma RetrEntry(e: Entry, body: string)
    requires EntryOk(e) && Found(e, body) && Intact(body)
    ensures e.reply <= MESSAGE_FOLLOWS + Stuff(body) + MAIL_END
    ensures e.done ==> (e.reply == MESSAGE_FOLLOWS + Stuff(body) + MAIL_END <==> e.room >= |MAIL_END|)
  {
    hide Stuff, Intact, Atoi, FromTable;
    var whole := MESSAGE_FOLLOWS + Stuff(body);
    assert whole <= whole + MAIL_END;
    if e.done {
      assert RetrReply(body, e.reply, e.room);
    }
  }

  /** A seven-bit mail that came whole, read by a client whose lines end with CRLF: it finds the end of the mail where
      it is, and gets the mail back exactly if every dot behind a CRLF or at the beginning stands alone in its line,
      and no dot behind an LF without a CR does. */
  lemma MailRecovered(states: seq<State>, events: seq<Event>, k: nat, i: nat, login: nat, body: string)
    requires IsRun(states, events) && k < |states|
    requires Retrieves(states[k].hist.log, i, login, body) && forall j | 0 <= j < |body| :: 1 <= body[j] as int <= 127
    ensures var e := states[k].hist.log[i];
            e.done && e.room >= |MAIL_END| ==>
              && e.reply == MESSAGE_FOLLOWS + Stuff(body) + TERMINATOR
              && (forall q: nat | TerminatorAt(e.reply, q) :: q == |MESSAGE_FOLLOWS| + |Stuff(body)|)
              && (Unstuff(false, e.reply[|MESSAGE_FOLLOWS|..|e.reply| - |TERMINATOR|]) == body <==>
                  forall j | 0 <= j < |body| && body[j] == '.' && AtLineStart(body, j) ::
                    LoneDot(body, j) <==> ReadsLineStart(false, body, j))
  {
    hide Stuff, IsRun, Unstuff, ReceiveAll, CommandsOf, RepliesOf, InStep, LoneDot, Atoi, Retrieves;
    assert Intact(body);
    RetrievesInLog(states[k].hist.log, i, login, body);
    var e := states[k].hist.log[i];
    RetrEndToEnd(states, events, k, i, login, body);
    assert IsLine(MESSAGE_FOLLOWS);
    TextIsFramed(MESSAGE_FOLLOWS, body);
    RoundTripExactly(false, body);
    AllRestorable(body);
    MiddleOf(MESSAGE_FOLLOWS, Stuff(body), TERMINATOR);
  }

  lemma AllRestorable(body: string)
    requires AllKept(body)
    ensures (forall j | 0 <= j < |body| :: Restorable(false, body, j)) <==>
            forall j | 0 <= j < |body| && body[j] == '.' && AtLineStart(body, j) ::
              LoneDot(body, j) <==> ReadsLineStart(false, body, j)
  {
    hide LoneDot, ReadsLineStart, AtLineStart;
    assert forall j | 0 <= j < |body| ::
        Restorable(false, body, j) <==>
          (body[j] == '.' && AtLineStart(body, j) ==> (LoneDot(body, j) <==> ReadsLineStart(false, body, j)));
  }

  lemma MiddleOf(head: string, middle: string, end: string)
    ensures (head + middle + end)[|head|..|head + middle + end| - |end|] == middle
  {
  }

  // ---------- the truncated mail ----------

  lemma {:induction false} KeptGivesOutput(state: ReadState, s: string)
    requires forall i | 0 <= i < |s| :: Kept(s[i])
    ensures |Transduce(state, s)| >= |s|
    decreases |s|, state == DOT
  {
    if s != "" {
      if state == DOT && s[0] == '\r' {
        KeptGivesOutput(NORMAL, s);
      } else {
        KeptGivesOutput(Next(state, s[0]), s[1..]);
      }
    }
  }

  /** With nothing to drop, a get gives as much as it is asked for or everything there is. */
  lemma {:induction false} TakeKept(p: Processor, n: nat)
    requires p.eofReached && forall i | 0 <= i < |p.pending| :: Kept(p.pending[i])
    ensures var t := Take(p, n);
            && |t.out| == Min(n, |Remaining(p, "")|)
            && (forall i | 0 <= i < |t.after.pending| :: Kept(t.after.pending[i]))
    decreases n
  {
    TakeConserves(p, n, "");
    if n > 0 {
      var r := ReadOne(p);
      ReadOneConserves(p, "");
      if r.byte > 0 {
        TakeKept(r.after, n - 1);
      } else {
        assert p.pending + "" == "";
      }
    }
  }

  /** A mail that fits the first piece: RETR on an empty buffer ends at once, and with its terminator only if at most
      486 bytes had to be sent for the mail itself. */
  lemma ShortMailTruncated(c: Conn, argument: string, env: Env, body: string)
    requires ConnOk(c) && c.cache.Some? && !c.processing && c.out == ""
    requires ValidMailNo(c.cache.value.mails, Atoi(argument)) && body == c.cache.value.mails[Atoi(argument) - 1].body
    requires (forall i | 0 <= i < |body| :: Kept(body[i])) && |Stuff(body)| <= 491 && |body| < 491
    ensures var h := Retr(c, argument, env);
            && h.status == FINISHED
            && h.conn.out == MESSAGE_FOLLOWS + Stuff(body) + if |Stuff(body)| <= 486 then MAIL_END else ""
  {
    hide Stuff, GetN, Reading, ConnOk, Atoi;
    var c0 := RetrBegin(c, Atoi(argument));
    assert c0.out == MESSAGE_FOLLOWS && FreeSpace(c0) == 491;
    FirstPieceIsAll(c0.cache.value, body);
    EndsAtOnce(c0);
  }

  /** The one piece goes to the output whole, as it is no longer than what was asked for. */
  lemma EndsAtOnce(c0: Conn)
    requires c0.out == MESSAGE_FOLLOWS && c0.cache.Some? && c0.cache.value.currentMail.Some?
    ensures var g := GetN(c0.cache.value, 491);
            g.status == FINISHED && |g.out| <= 491 ==>
              ContinueRetr(c0) == (FINISHED, c0.(cache := Some(g.cache), out := MESSAGE_FOLLOWS + g.out))
  {
    hide GetN, Reading;
  }

  lemma FirstPieceIsAll(cache: Cache, body: string)
    requires cache.currentMail == Some(File(body, 0, false)) && cache.processor == FRESH
    requires (forall i | 0 <= i < |body| :: Kept(body[i])) && |Stuff(body)| <= 491 && |body| < 491
    ensures GetN(cache, 491).status == FINISHED && GetN(cache, 491).out == Stuff(body)
  {
    var full := Refill(cache, 491);
    assert body[0..] == body && body[..|body|] == body;
    StrncpyKept(body);
    assert full.processor == Processor(body, true, NEWLINE);
    TransduceIsStuff(body);
    assert body + "" == body;
    TakeKept(full.processor, 491);
    TakeConserves(full.processor, 491, "");
    var t := Take(full.processor, 491);
    assert t.after.pending + "" == t.after.pending;
    KeptGivesOutput(t.after.state, t.after.pending);
  }

  lemma {:induction false} StrncpyKept(s: string)
    requires forall i | 0 <= i < |s| :: Kept(s[i])
    ensures Strncpy(s) == s
  {
    if s != "" {
      assert Kept(s[0]);
      StrncpyKept(s[1..]);
    }
  }
}
