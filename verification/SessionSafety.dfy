/** Sections 4 to 6 of RFC 1939 over whole runs: the session states, the marks, and the mails that are deleted. */
module SessionSafety {
  import opened Text
  import opened Commands
  import opened Parsing
  import opened Streaming
  import opened Mailbox
  import opened Session
  import opened Replies
  import opened Runs

  /** The numbers the client was told are marked, and not told since that they no longer are. */
  function MarkedBy(log: seq<Entry>): set<int> {
    if log == [] then {}
    else
      var e, before := log[|log| - 1], MarkedBy(log[..|log| - 1]);
      if !e.done || e.cmd.executeCommand == None then before
      else if e.cmd.executeCommand.value.verb == DELE && e.reply == MARKED then before + {Atoi(e.cmd.arg1)}
      else if e.cmd.executeCommand.value.verb == RSET && e.reply == UNMARKED then {}
      else before
  }

  /** Was this a QUIT that was accepted? */
  predicate QuitsIn(e: Entry, state: PopState) {
    e.done && e.cmd.executeCommand.Some? && e.cmd.executeCommand.value.verb == QUIT && e.before.state == state
  }

  /** Is the mail marked? */
  predicate Marks(mails: seq<Mail>, n: int) {
    1 <= n <= |mails| && mails[n - 1].toDelete
  }

  ghost predicate SameMarks(mails: seq<Mail>, marked: set<int>) {
    forall n :: n in marked <==> Marks(mails, n)
  }

  /** What the session is after a log, told from the answers in it. */
  ghost predicate SessionTold(s: Sess, log: seq<Entry>) {
    match s.state
    case AUTHENTICATION => s.store == None && MarkedBy(log) == {}
      && forall e | e in log :: e.before.state == AUTHENTICATION
    case TRANSACTION =>
      && s.store.Some? && s.store.value.unlinked == [] && SameMarks(s.store.value.mails, MarkedBy(log))
      && forall e | e in log :: e.before.state in {AUTHENTICATION, TRANSACTION} && !QuitsIn(e, TRANSACTION)
    case UPDATE =>
      && (exists e :: e in log && (QuitsIn(e, AUTHENTICATION) || QuitsIn(e, TRANSACTION)))
      && (if s.store == None then forall e | e in log :: e.before.state in {AUTHENTICATION, UPDATE}
          else
            && (exists e :: e in log && QuitsIn(e, TRANSACTION))
            && SameMarks(s.store.value.mails, MarkedBy(log))
            && s.store.value.unlinked == MarkedNumbers(s.store.value.mails, |s.store.value.mails|))
    case ANY => false
  }

  lemma MarkOne(mails: seq<Mail>, marked: set<int>, n: int)
    requires SameMarks(mails, marked) && ValidMailNo(mails, n)
    ensures SameMarks(mails[n - 1 := mails[n - 1].(toDelete := true)], marked + {n})
  {
    var mails' := mails[n - 1 := mails[n - 1].(toDelete := true)];
    forall k
      ensures k in marked + {n} <==> Marks(mails', k)
    {
      assert k in marked <==> Marks(mails, k);
    }
  }

  lemma Snoc(log: seq<Entry>, e: Entry)
    ensures (log + [e])[..|log|] == log && (log + [e])[|log|] == e
    ensures forall x :: x in log + [e] <==> x in log || x == e
  {
  }

  /** An entry that changes neither the session state nor the mails. */
  lemma Steady(log: seq<Entry>, e: Entry)
    requires SessionTold(e.before, log)
    requires e.after.state == e.before.state && e.after.store == e.before.store && MarkedBy(log + [e]) == MarkedBy(log)
    requires !QuitsIn(e, TRANSACTION)
    ensures SessionTold(e.after, log + [e])
  {
    hide MarkedBy, SameMarks;
    Snoc(log, e);
  }

  predicate Ran(e: Entry, verb: Verb) {
    && e.done && e.cmd.executeCommand.Some? && e.cmd.executeCommand.value.verb == verb
    && (Needed(verb) == ANY || Needed(verb) == e.before.state)
  }

  lemma PassTold(log: seq<Entry>, e: Entry)
    requires SessionTold(e.before, log) && EntryOk(e) && Ran(e, PASS) && e.after != e.before
    requires e.cmd.executeCommand.value.stateNeeded == AUTHENTICATION
    ensures SessionTold(e.after, log + [e])
  {
    Snoc(log, e);
    assert e.after.store.value.mails == InitCache(e.env.mailbox).mails;
    forall n
      ensures n in MarkedBy(log + [e]) <==> Marks(e.after.store.value.mails, n)
    {
    }
  }

  lemma QuitTold(log: seq<Entry>, e: Entry)
    requires SessionTold(e.before, log) && EntryOk(e) && Ran(e, QUIT)
    requires e.cmd.executeCommand.value.stateNeeded == ANY
    ensures SessionTold(e.after, log + [e])
  {
    hide SameMarks;
    Snoc(log, e);
    assert MarkedBy(log + [e]) == MarkedBy(log);
    if e.before.state == TRANSACTION {
      assert [] + MarkedNumbers(e.before.store.value.mails, |e.before.store.value.mails|)
          == MarkedNumbers(e.before.store.value.mails, |e.before.store.value.mails|);
      assert QuitsIn(e, TRANSACTION);
    } else if e.before.state == AUTHENTICATION {
      assert QuitsIn(e, AUTHENTICATION);
    }
  }

  lemma DeleTold(log: seq<Entry>, e: Entry)
    requires SessionTold(e.before, log) && EntryOk(e) && Ran(e, DELE)
    requires e.cmd.executeCommand.value.stateNeeded == TRANSACTION
    ensures SessionTold(e.after, log + [e])
  {
    hide Atoi;
    Snoc(log, e);
    var mails, n := e.before.store.value.mails, Atoi(e.cmd.arg1);
    if ValidMailNo(mails, n) {
      MarkOne(mails, MarkedBy(log), n);
    } else {
      assert NO_SUCH_EMAIL[0] == '-' && MARKED[0] == '+';
      Steady(log, e);
    }
  }

  lemma RsetTold(log: seq<Entry>, e: Entry)
    requires SessionTold(e.before, log) && EntryOk(e) && Ran(e, RSET)
    requires e.cmd.executeCommand.value.stateNeeded == TRANSACTION
    ensures SessionTold(e.after, log + [e])
  {
    Snoc(log, e);
    assert MarkedBy(log + [e]) == {};
    forall n
      ensures n in MarkedBy(log + [e]) <==> Marks(e.after.store.value.mails, n)
    {
    }
  }

  lemma RefusedTold(log: seq<Entry>, e: Entry)
    requires SessionTold(e.before, log) && EntryOk(e)
    requires e.cmd.executeCommand == None || !Ran(e, e.cmd.executeCommand.value.verb)
    requires e.cmd.executeCommand.Some? ==>
               e.cmd.executeCommand.value.stateNeeded == Needed(e.cmd.executeCommand.value.verb)
    ensures SessionTold(e.after, log + [e])
  {
    Snoc(log, e);
    assert INVALID_STATE[0] == '-' && MARKED[0] == '+' && UNMARKED[0] == '+';
    Steady(log, e);
  }

  lemma OtherTold(log: seq<Entry>, e: Entry, verb: Verb)
    requires SessionTold(e.before, log) && EntryOk(e) && Ran(e, verb) && verb !in {PASS, QUIT, DELE, RSET}
    requires e.cmd.executeCommand.value.stateNeeded == Needed(verb)
    ensures SessionTold(e.after, log + [e])
  {
    hide RetrReply, ListReply, StatLine, ListLine, Atoi;
    Snoc(log, e);
    Steady(log, e);
  }

  lemma EntryTold(log: seq<Entry>, e: Entry)
    requires SessionTold(e.before, log) && EntryOk(e)
    ensures SessionTold(e.after, log + [e])
  {
    hide SessionTold, MarkedBy, InTable;
    if e.cmd.executeCommand.Some? {
      assert [e.cmd][0] == e.cmd;
      TableNeeds(e.cmd.executeCommand.value);
    }
    if e.cmd.executeCommand == None || !Ran(e, e.cmd.executeCommand.value.verb) {
      RefusedTold(log, e);
    } else {
      ServedTold(log, e, e.cmd.executeCommand.value.verb);
    }
  }

  lemma ServedTold(log: seq<Entry>, e: Entry, verb: Verb)
    requires SessionTold(e.before, log) && EntryOk(e) && Ran(e, verb)
    requires e.cmd.executeCommand.value.stateNeeded == Needed(verb)
    ensures SessionTold(e.after, log + [e])
  {
    hide SessionTold, EntryOk;
    match verb
    case PASS =>
      if e.after == e.before {
        PassRefused(log, e);
      } else {
        PassTold(log, e);
      }
    case QUIT => QuitTold(log, e);
    case DELE => DeleTold(log, e);
    case RSET => RsetTold(log, e);
    case _ => OtherTold(log, e, verb);
  }

  lemma PassRefused(log: seq<Entry>, e: Entry)
    requires SessionTold(e.before, log) && Ran(e, PASS) && e.after == e.before
    ensures SessionTold(e.after, log + [e])
  {
    hide SessionTold;
    Snoc(log, e);
    Steady(log, e);
  }

  lemma {:induction false} LogTold(log: seq<Entry>)
    requires LogOk(log)
    ensures SessionTold(LastSess(log), log)
    decreases |log|
  {
    hide EntryOk, MarkedBy;
    if log == [] {
      assert MarkedBy([]) == {} by {
        NoMarks();
      }
    } else {
      var before, e := log[..|log| - 1], log[|log| - 1];
      assert log == before + [e];
      assert forall i | 0 <= i < |before| :: before[i] == log[i] && before[..i] == log[..i];
      LogTold(before);
      EntryTold(before, e);
    }
  }

  lemma NoMarks()
    ensures MarkedBy([]) == {}
  {
  }

  // ---------- over runs ----------

  /** In every reachable state: TRANSACTION means that there is a cache, the marked mails are those the client was
      told are marked since the last reset, and nothing was deleted unless a QUIT was accepted in TRANSACTION; then
      exactly those mails were deleted, each once. */
  lemma DeletesWhatWasMarked(states: seq<State>, events: seq<Event>, k: nat)
    requires IsRun(states, events) && k < |states|
    ensures var log := states[k].hist.log;
            var s := LastSess(log);
            && (states[k].conn.open ==> SessOf(states[k].conn) == s)
            && s.state != ANY
            && (s.state == TRANSACTION ==> s.store.Some?)
            && (s.store.Some? ==>
                  && SameMarks(s.store.value.mails, MarkedBy(log))
                  && (forall n :: n in s.store.value.unlinked <==>
                                  (exists e :: e in log && QuitsIn(e, TRANSACTION)) && n in MarkedBy(log))
                  && (forall i, j | 0 <= i < j < |s.store.value.unlinked| ::
                        s.store.value.unlinked[i] != s.store.value.unlinked[j]))
  {
    hide IsRun, ReceiveAll, CommandsOf, RepliesOf, MarkedBy, EntryOk, ConnOk, SameMarks, QuitsIn;
    RunInv(states, events, k);
    var log := states[k].hist.log;
    assert LogOk(log);
    LogTold(log);
    if LastSess(log).store.Some? {
      ToldDeletions(LastSess(log), log);
    }
  }

  lemma ToldDeletions(s: Sess, log: seq<Entry>)
    requires SessionTold(s, log) && s.store.Some?
    ensures var store := s.store.value;
            && SameMarks(store.mails, MarkedBy(log))
            && (forall n :: n in store.unlinked <==>
              (exists e :: e in log && QuitsIn(e, TRANSACTION)) && n in MarkedBy(log))
            && (forall i, j | 0 <= i < j < |store.unlinked| :: store.unlinked[i] != store.unlinked[j])
  {
    hide MarkedBy, QuitsIn;
    var mails, unlinked := s.store.value.mails, s.store.value.unlinked;
    MarkedNumbersMember(mails, |mails|);
    forall n
      ensures n in MarkedNumbers(mails, |mails|) <==> n in MarkedBy(log)
    {
      assert n in MarkedBy(log) <==> Marks(mails, n);
    }
  }

  function Rank(state: PopState): nat {
    match state
    case ANY => 0
    case AUTHENTICATION => 1
    case TRANSACTION => 2
    case UPDATE => 3
  }

  /** While a connection stays open its session state never goes back, and it reaches UPDATE only by QUIT. */
  lemma StatesOnlyAdvance(states: seq<State>, events: seq<Event>, k: nat)
    requires IsRun(states, events) && k + 1 < |states| && states[k].conn.open && states[k + 1].conn.open
    ensures Rank(states[k].conn.sessionState) <= Rank(states[k + 1].conn.sessionState)
    ensures states[k + 1].conn.sessionState == UPDATE ==>
              exists e :: e in states[k + 1].hist.log && e.cmd.executeCommand.Some?
                && e.cmd.executeCommand.value.verb == QUIT
  {
    hide ReceiveAll, CommandsOf, RepliesOf, MarkedBy, EntryOk, ConnOk, Inv, StepState, Enabled, SameMarks;
    RunInv(states, events, k);
    RunInv(states, events, k + 1);
    OpenInStep(states[k]);
    OpenInStep(states[k + 1]);
    LogTold(states[k + 1].hist.log);
    LogGrows(states[k], events[k]);
    AdvanceTold(states[k], states[k + 1].hist.log);
  }

  lemma OpenInStep(s: State)
    requires Inv(s) && s.conn.open
    ensures LogOk(s.hist.log) && SessOf(s.conn) == LastSess(s.hist.log)
  {
    hide ReceiveAll, CommandsOf, RepliesOf, EntryOk, ConnOk, LogOk;
  }

  /** A step changes at most the last, unfinished entry of the log, or adds one. */
  lemma LogGrows(s: State, e: Event)
    requires Inv(s) && Enabled(s, e) && s.conn.open
    ensures var log, log' := s.hist.log, StepState(s, e).hist.log;
            || log' == log
            || (|log'| == |log| + 1 && log'[..|log|] == log)
            || (|log'| == |log| && log != [] && !log[|log| - 1].done && log'[..|log| - 1] == log[..|log| - 1]
                && log'[|log| - 1].before == log[|log| - 1].before)
  {
    hide ReceiveAll, CommandsOf, RepliesOf, EntryOk, ConnOk, ExecuteFirstCommand, HandleWritable, ReadFromClient, LogOk,
      InProgress;
  }

  /** One entry moves the session state at most forward. */
  lemma EntryAdvances(e: Entry)
    requires EntryOk(e) && e.before.state != ANY
    ensures Rank(e.before.state) <= Rank(e.after.state)
  {
    hide RetrReply, ListReply, StatLine, ListLine, Atoi;
    if e.cmd.executeCommand.Some? {
      assert [e.cmd][0] == e.cmd;
      TableNeeds(e.cmd.executeCommand.value);
    }
  }

  lemma AdvanceTold(s: State, log': seq<Entry>)
    requires Inv(s) && s.conn.open && LogOk(log')
    requires var log := s.hist.log;
            || log' == log
            || (|log'| == |log| + 1 && log'[..|log|] == log)
            || (|log'| == |log| && log != [] && !log[|log| - 1].done && log'[..|log| - 1] == log[..|log| - 1]
                && log'[|log| - 1].before == log[|log| - 1].before)
    ensures Rank(LastSess(s.hist.log).state) <= Rank(LastSess(log').state)
  {
    hide ReceiveAll, CommandsOf, RepliesOf, EntryOk, ConnOk, MarkedBy, SameMarks;
    OpenInStep(s);
    var log := s.hist.log;
    if log' != log {
      var e := log'[|log'| - 1];
      assert EntryOk(e) && e.before == LastSess(log'[..|log'| - 1]);
      if |log'| == |log| {
        UnfinishedKeeps(log[|log| - 1]);
      }
      LogTold(log);
      EntryAdvances(e);
    }
  }

  lemma UnfinishedKeeps(e: Entry)
    requires EntryOk(e) && !e.done
    ensures e.after == e.before
  {
  }
}
