/** LIST and STAT tell the same story when the last mail is not marked; suspended commands come to an end. */
module Listing {
  import opened Text
  import opened Commands
  import opened Parsing
  import opened Streaming
  import opened Mailbox
  import opened Users
  import opened Session
  import opened Readers
  import opened Replies
  import opened Handlers
  import opened Runs
  import opened Dialogues

  /** The mails LIST is about are exactly those that stand, in increasing number, each with the size of its file. */
  lemma {:induction false} StandingExactly(d: Dialogue, n: nat)
    requires 1 <= n <= |d.mailbox| + 1
    ensures forall a, b | 0 <= a < b < |StandingFrom(d, n)| ::
              StandingFrom(d, n)[a].mailNo < StandingFrom(d, n)[b].mailNo
    ensures forall info :: info in StandingFrom(d, n) <==>
              info.mailNo >= n && Standing(d, info.mailNo) && info.sizeInBytes == |d.mailbox[info.mailNo - 1]|
    decreases |d.mailbox| + 1 - n
  {
    if n <= |d.mailbox| {
      StandingExactly(d, n + 1);
      var rest := StandingFrom(d, n + 1);
      assert forall b | 0 <= b < |rest| :: rest[b] in rest;
    }
  }

  lemma {:induction false} PairsLength(lines: seq<string>)
    ensures |ReadPairs(lines)| == |lines|
    ensures forall i | 0 <= i < |lines| :: ReadPairs(lines)[i] == ReadPair(lines[i])
  {
    if lines != [] {
      PairsLength(lines[1..]);
    }
  }

  /** What a client reads off the answer is the list of the mails that stand exactly when the last mail is not
      marked. */
  lemma ListingExactly(d: Dialogue, reply: string)
    requires SaysList(d, reply)
    ensures ReadListing(reply) == StandingFrom(d, 1) <==> |d.mailbox| !in d.marked
  {
    hide StandingFrom, ReadPair, Numeral, TextLines, Nth;
    var lines := Between(TextLines(reply));
    PairsLength(lines);
    if |d.mailbox| !in d.marked {
      assert lines[..|StandingFrom(d, 1)|] == lines;
    }
  }

  /** A finished request of that name, after the first `i` entries, in a session with mails. */
  ghost predicate Asked(log: seq<Entry>, i: nat, verb: Verb) {
    && i < |log| && log[i].done && Requested(log[i].cmd) == Some(verb) && DialogueOf(log[..i]).phase == TRANSACTION
  }

  /** A LIST and a STAT of one connection that found the same marks, in whatever order and however often LIST was
      suspended: the mailbox is that of the one login, STAT's numbers are how many of its files stand and their total
      size, and a client reads exactly the numbers and sizes of those files off LIST if and only if the last one is
      not marked. */
  lemma ListAgreesWithStat(states: seq<State>, events: seq<Event>, k: nat, i: nat, j: nat)
    requires IsRun(states, events) && k < |states|
    requires Asked(states[k].hist.log, i, LIST) && states[k].hist.log[i].cmd.arg1 == ""
    requires Asked(states[k].hist.log, j, STAT)
    requires DialogueOf(states[k].hist.log[..i]) == DialogueOf(states[k].hist.log[..j])
    ensures var log := states[k].hist.log;
            var d := DialogueOf(log[..i]);
            && (exists login: nat :: OpenedBy(log[..i], login))
            && SaysTwo(log[j].reply, |StandingFrom(d, 1)|, Sizes(StandingFrom(d, 1)))
            && SaysList(d, log[i].reply)
            && (ReadListing(log[i].reply) == StandingFrom(d, 1) <==> |d.mailbox| !in d.marked)
  {
    hide IsRun, DialogueOf, SaysTwo, SaysList, ReadListing, StandingFrom, Sizes, OpenedBy, VerbNamed, Told;
    var log := states[k].hist.log;
    Conversation(states, events, k, i);
    Conversation(states, events, k, j);
    RunLog(states, events, k);
    LogPrefix(log, i);
    OneLogin(log[..i]);
    ListingExactly(DialogueOf(log[..i]), log[i].reply);
  }

  lemma RunLog(states: seq<State>, events: seq<Event>, k: nat)
    requires IsRun(states, events) && k < |states|
    ensures LogOk(states[k].hist.log)
  {
    hide IsRun, EntryOk, ReceiveAll, CommandsOf, RepliesOf, ConnOk;
    RunInv(states, events, k);
  }

  // ---------- the number in a line ----------

  /** The number that stands in a line of an answer to LIST names a mail that stands, of the size in the same line,
      when it is given to RETR, DELE or LIST as it stands there. */
  lemma ListedNumberSelects(d: Dialogue, reply: string, i: nat)
    requires SaysList(d, reply) && |d.mailbox| <= INT32_MAX && i < |StandingFrom(d, 1)|
    ensures var line := Between(TextLines(reply))[i];
            var number := Before(line, ' ');
            && ReadPair(line) in StandingFrom(d, 1) && Atoi(number) == ReadPair(line).mailNo
            && Standing(d, Atoi(number)) && ReadPair(line).sizeInBytes == |d.mailbox[Atoi(number) - 1]|
  {
    hide StandingFrom, Numeral, TextLines, Nth, Before, Behind, Atoi, Value;
    var lines := Between(TextLines(reply));
    var infos := StandingFrom(d, 1);
    PairsLength(lines[..|infos|]);
    assert lines[..|infos|][i] == lines[i] && ReadPair(lines[i]) == infos[i];
    StandingExactly(d, 1);
    assert infos[i] in infos;
    AtoiNumeral(Before(lines[i], ' '));
  }

  /** DELE with that number takes exactly that mail off the list. */
  lemma ListedNumberDeletes(d: Dialogue, reply: string, i: nat, users: seq<User>, mailbox: seq<string>)
    requires SaysList(d, reply) && |d.mailbox| <= INT32_MAX && i < |StandingFrom(d, 1)| && d.phase == TRANSACTION
    ensures var line := Between(TextLines(reply))[i];
            var d' := After(d, DELE, Before(line, ' '), users, mailbox);
            && Succeeds(d, DELE, Before(line, ' '), users) && d'.mailbox == d.mailbox
            && forall other :: other in StandingFrom(d', 1) <==>
                               other in StandingFrom(d, 1) && other.mailNo != ReadPair(line).mailNo
  {
    hide StandingFrom, Numeral, TextLines, Nth, Before, Behind, Atoi, Value, SaysList;
    MiddleLong(d, reply);
    ListedNumberSelects(d, reply, i);
    StandingExactly(d, 1);
    StandingExactly(After(d, DELE, Before(Between(TextLines(reply))[i], ' '), users, mailbox), 1);
  }

  lemma MiddleLong(d: Dialogue, reply: string)
    requires SaysList(d, reply)
    ensures |StandingFrom(d, 1)| <= |Between(TextLines(reply))|
  {
  }

  // ---------- suspended commands ----------

  /** What a suspended command still has before it. */
  function Work(c: Conn, verb: Verb): nat
    requires c.cache.Some? && c.cache.value.position <= |c.cache.value.mails|
    requires c.cache.value.currentMail.Some? ==>
             c.cache.value.currentMail.value.offset <= |c.cache.value.currentMail.value.body|
  {
    if verb == RETR then (if c.cache.value.currentMail.Some? then Unread(c.cache.value) else 0)
    else |c.cache.value.mails| - c.cache.value.position
  }

  lemma ListProgress(c: Conn, env: Env)
    requires ConnOk(c) && CanExecute(c) && c.processing && c.cache.Some? && EnvOk(env) && HasNext(c.cache.value)
    ensures var h := ListWithNoArguments(c, env);
            h.conn.cache.Some? && CacheOk(h.conn.cache.value) && Work(h.conn, LIST) < Work(c, LIST)
  {
    hide ListLine, CountMarked, TotalSize, ListAdded, ListLines, InTable;
    ContinueListLines(c, env.stale);
  }

  lemma RetrProgress(c: Conn, argument: string, env: Env)
    requires ConnOk(c) && CanExecute(c) && c.processing && c.cache.Some? && c.cache.value.currentMail.Some?
    ensures var h := Retr(c, argument, env);
            h.conn.cache.Some? && (h.status == NOT_FINISHED ==>
                                     Reading(h.conn.cache.value) && h.conn.cache.value.position ==
                                       c.cache.value.position
                                     && h.conn.cache.value.mails == c.cache.value.mails
                                     && h.conn.cache.value.currentMail.Some? && Work(h.conn, RETR) < Work(c, RETR))
  {
    hide CountMarked, TotalSize, InTable, FromTable;
    GetNProgress(c.cache.value, FreeSpace(c));
    GetNFile(c.cache.value, FreeSpace(c));
  }

  /** A suspended command that gets its turn with room for a line ends, or has less before it than before; so it is
      resumed at most as often as there are bytes, or mails, left. */
  lemma SuspendedCommandEnds(c: Conn, log: seq<Entry>, env: Env)
    requires InStep(c, log) && c.processing && CanExecute(c) && EnvOk(env)
    ensures var c' := ExecuteFirstCommand(c, env).conn;
            var verb := c.current.value.callback.value.verb;
            c'.processing ==>
              && c.cache.Some? && CacheOk(c.cache.value) && c'.cache.Some? && CacheOk(c'.cache.value)
              && Work(c', verb) < Work(c, verb)
  {
    hide LogOk, ListWithNoArguments, Retr, CountMarked, TotalSize, InTable, FromTable, ListLines, Reading, GetN;
    var job := c.current.value;
    ResumeSteps(c, log, env);
    var c' := ExecuteFirstCommand(c, env).conn;
    match job.callback.value.verb
    case LIST => ListProgress(c, env);
    case RETR => RetrProgress(c, job.arg1, env);
  }
}
