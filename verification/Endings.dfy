/** How connections end: by QUIT once everything is sent, by the end of the stream, or by a send that fails. */
module Endings {
  import opened Text
  import opened Commands
  import opened Parsing
  import opened Streaming
  import opened Mailbox
  import opened Users
  import opened Session
  import opened Replies
  import opened Handlers
  import opened Runs
  import opened Logins

  /** Everybody is registered with the same password as before, and connected as before, but for one name that
      is not. */
  ghost predicate Disconnected(us: seq<User>, us': seq<User>, name: string) {
    && |us'| == |us| && (forall i | 0 <= i < |us| :: us'[i].name == us[i].name && us'[i].password == us[i].password)
    && forall other :: IsConnected(us', other) <==> other != name && IsConnected(us, other)
  }

  lemma {:induction false} ToggleNames(us: seq<User>, name: string)
    ensures var us' := ToggleConnected(us, name, false);
            |us'| == |us| && forall i | 0 <= i < |us| :: us'[i].name == us[i].name && us'[i].password == us[i].password
  {
    if us != [] && us[0].name != name {
      ToggleNames(us[1..], name);
    }
  }

  /** Closing leaves the slot as it was before the connection, and the name it was told last not connected. */
  lemma ClosedExactly(c: Conn, users: seq<User>)
    requires c.open && !c.crashed
    ensures var t := CloseClient(c, users);
            && t.conn == VACANT && Disconnected(users, t.users, c.username)
  {
    hide ToggleConnected, IsConnected;
    ToggleNames(users, c.username);
    forall other
      ensures IsConnected(CloseClient(c, users).users, other) <==> other != c.username && IsConnected(users, other)
    {
      SeenConnected(users, c.username, other);
    }
  }

  lemma SeenConnected(users: seq<User>, name: string, other: string)
    ensures IsConnected(ToggleConnected(users, name, false), other) <==> other != name && IsConnected(users, other)
  {
    hide Change;
    ChangeSeen(users, name, WithConnected(false), other);
  }

  /** The end of the stream leaves the slot vacant, whatever the connection was doing. */
  lemma EndOfStreamEnds(c: Conn, users: seq<User>)
    requires c.open && !c.crashed
    ensures var t := ReadFromClient(c, users, EndOfStream);
            t.conn == VACANT && Disconnected(users, t.users, c.username)
  {
    ClosedExactly(c, users);
  }

  /** So does a send that fails. */
  lemma FailedSendEnds(c: Conn, env: Env)
    requires Dispatchable(c) && c.open && EnvOk(env)
    requires var t := Respond(c, env); t.conn.open && !t.conn.crashed && t.conn.out != ""
    ensures var t, end := Respond(c, env), HandleWritable(c, env, SendFailed);
            end.conn == VACANT && Disconnected(t.users, end.users, t.conn.username)
  {
    hide Respond, Disconnected, ToggleConnected;
    var t := Respond(c, env);
    ClosedExactly(t.conn.(out := ""), t.users);
  }

  /** A connection that was told to quit never waits for the client again. */
  lemma QuitNeverWaits(states: seq<State>, events: seq<Event>, k: nat)
    requires IsRun(states, events) && k < |states|
    requires states[k].conn.open && states[k].conn.sessionState == UPDATE
    ensures states[k].conn.clientState == WRITING
  {
    hide IsRun, InStep, ReceiveAll, CommandsOf, RepliesOf;
    RunInv(states, events, k);
  }

  /** A step in which send does not fail ends the connection exactly when it was told to quit, send took everything
      that was offered, no complete command is left and none is suspended. Then the client was sent everything it was
      owed, and the slot is vacant and its name no longer connected. */
  lemma QuitEndsExactly(states: seq<State>, events: seq<Event>, k: nat)
    requires IsRun(states, events) && k < |events| && events[k].Writable? && events[k].send.Sent?
    ensures var s, s', env, n := states[k], states[k + 1], events[k].env, events[k].send.n;
            Dispatchable(s.conn) && n <= |Respond(s.conn, env).conn.out|
            && var t := Respond(s.conn, env);
               && (!s'.conn.open <==>
                     t.conn.sessionState == UPDATE && n == |t.conn.out| && !Available(t.conn.queue)
                       && !t.conn.processing)
               && (!s'.conn.open ==>
                     && s'.conn == VACANT && s'.hist.sent == GREETING + Concat(RepliesOf(s'.hist.log))
                     && Disconnected(t.users, HandleWritable(s.conn, env, events[k].send).users, t.conn.username))
               && (s'.conn.open ==> HandleWritable(s.conn, env, events[k].send).users == t.users)
  {
    hide InStep, LogOk, Receive, ReceiveAll, CommandsOf, RepliesOf, InTable, CacheOk, FromTable, Ordered, Disconnected,
      ExecuteFirstCommand, InProgress, Logged, Respond, IsConnected, ToggleConnected, GREETING, Concat;
    var s, env, n := states[k], events[k].env, events[k].send.n;
    assert Enabled(s, events[k]) && states[k + 1] == StepState(s, events[k]);
    RunInv(states, events, k);
    RespondSteps(s.conn, s.hist.log, env);
    var t := Respond(s.conn, env);
    SteppedIsOk(s.conn, s.hist.log, t.conn, Logged(s.conn, s.hist.log, env));
    SendKeepsStream(t.conn, t.users, n);
    var w := WriteToClient(t.conn, t.users, Sent(n));
    if n == |t.conn.out| {
      assert t.conn.out[n..] == "" && t.conn.out[..n] == t.conn.out;
      SentWhole(s, env, t.conn);
    }
    if w.conn.clientState == READING && w.conn.sessionState == UPDATE {
      ClosedExactly(w.conn, t.users);
    }
  }

  lemma SteppedIsOk(c: Conn, log: seq<Entry>, c': Conn, log': seq<Entry>)
    requires Stepped(c, log, c', log')
    ensures |c'.out| <= BUFFERSIZE && !c'.crashed && c'.open == c.open && c'.clientState == c.clientState
  {
    hide LogOk, CacheOk, InProgress, FromTable, RepliesOf, CommandsOf;
  }

  /** When the whole ring is sent, the client has all the replies there are. */
  lemma SentWhole(s: State, env: Env, c: Conn)
    requires Inv(s) && s.conn.open && Dispatchable(s.conn) && EnvOk(env) && c == Respond(s.conn, env).conn
    ensures s.hist.sent + c.out == GREETING + Concat(RepliesOf(Logged(s.conn, s.hist.log, env)))
  {
    hide LogOk, CacheOk, InProgress, FromTable, RepliesOf, CommandsOf, Respond, Logged, GREETING, Ordered, ReceiveAll;
    var log' := Logged(s.conn, s.hist.log, env);
    RespondSteps(s.conn, s.hist.log, env);
    StreamGrows(s.hist.sent, s.conn.out, c.out, Concat(RepliesOf(s.hist.log)), Concat(RepliesOf(log')), "", c.out);
    assert s.hist.sent + "" == s.hist.sent;
  }

  /** Does this step end the connection? The end of the stream does, a send that fails with something to send does, and
      everything sent after QUIT does. */
  ghost predicate Ends(c: Conn, e: Event)
    requires Dispatchable(c)
  {
    match e
    case Readable(recv) => recv.EndOfStream?
    case Writable(env, send) =>
      var t := Respond(c, env).conn;
      || (send.SendFailed? && t.out != "")
      || (t.sessionState == UPDATE && !Available(t.queue) && !t.processing && (send.Sent? ==> send.n == |t.out|))
  }

  /** Nothing else does; and an error of recv leaves everything as it was. */
  lemma EndsExactly(states: seq<State>, events: seq<Event>, k: nat)
    requires IsRun(states, events) && k < |events|
    ensures states[k].conn.open && Dispatchable(states[k].conn)
    ensures !states[k + 1].conn.open <==> Ends(states[k].conn, events[k])
    ensures events[k] == Readable(ReceiveError) ==> states[k + 1] == states[k]
  {
    hide InStep, LogOk, Receive, ReceiveAll, CommandsOf, RepliesOf, InTable, CacheOk, FromTable, Ordered, Inv,
      ExecuteFirstCommand, InProgress, Logged, Respond, ToggleConnected, GREETING, Concat;
    assert Enabled(states[k], events[k]) && states[k + 1] == StepState(states[k], events[k]);
    match events[k] {
      case Readable(_) =>
      case Writable(env, send) =>
        match send {
          case Sent(_) => QuitEndsExactly(states, events, k);
          case SendFailed =>
            RunInv(states, events, k);
            StillWriting(states[k], env);
            FailingSendEnds(states[k], env);
        }
    }
  }

  lemma StillWriting(s: State, env: Env)
    requires Inv(s) && Enabled(s, Writable(env, SendFailed))
    ensures Respond(s.conn, env).conn.open && Respond(s.conn, env).conn.clientState == WRITING
  {
    hide InStep, LogOk, Logged, Respond, CommandsOf, RepliesOf, ReceiveAll;
    RespondSteps(s.conn, s.hist.log, env);
    SteppedIsOk(s.conn, s.hist.log, Respond(s.conn, env).conn, Logged(s.conn, s.hist.log, env));
  }

  lemma FailingSendEnds(s: State, env: Env)
    requires Enabled(s, Writable(env, SendFailed))
    ensures var t := Respond(s.conn, env).conn;
            t.open && t.clientState == WRITING ==> (!StepState(s, Writable(env, SendFailed)).conn.open <==>
                        t.out != "" || (t.sessionState == UPDATE && !Available(t.queue) && !t.processing))
  {
    hide Respond, Logged, ToggleConnected;
  }

  /** Only the end of the stream changes the users when the server reads. */
  lemma ReadingKeepsUsers(c: Conn, users: seq<User>, recv: Recv)
    ensures !recv.EndOfStream? ==> ReadFromClient(c, users, recv).users == users
  {
  }
}
