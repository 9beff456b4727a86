/** The session as section 4 to 6 of RFC 1939 tell it, in the client's terms: requests, answers, and the mailbox that
    the login found; and every run of the server is such a dialogue. */
module Dialogues {
  import opened Text
  import opened Commands
  import opened Parsing
  import opened Stuffing
  import opened Streaming
  import opened Framing
  import opened Mailbox
  import opened Users
  import opened Session
  import opened Readers
  import opened Replies
  import opened Runs

  // ---------- the reference ----------

  /** What the client can know: the name given, the mailbox of the login, the numbers marked, and the numbers
      removed. */
  datatype Dialogue = Dialogue(phase: PopState, user: string, mailbox: seq<string>, marked: set<int>, removed: set<int>)

  const OPENING: Dialogue := Dialogue(AUTHENTICATION, "", [], {}, {})

  /** Is there a mail of that number that is not marked? */
  predicate Standing(d: Dialogue, n: int) {
    1 <= n <= |d.mailbox| && n !in d.marked
  }

  predicate InPhase(d: Dialogue, verb: Verb) {
    match verb
    case USER | PASS => d.phase == AUTHENTICATION
    case QUIT | CAPA => true
    case STAT | LIST | RETR | DELE | NOOP | RSET => d.phase == TRANSACTION
  }

  predicate Succeeds(d: Dialogue, verb: Verb, arg: string, users: seq<User>) {
    && InPhase(d, verb)
    && match verb
       case PASS => ValidPassword(users, d.user, arg) && !IsConnected(users, d.user)
       case RETR | DELE => Standing(d, Atoi(arg))
       case LIST => arg == "" || Standing(d, Atoi(arg))
       case _ => true
  }

  function After(d: Dialogue, verb: Verb, arg: string, users: seq<User>, mailbox: seq<string>): Dialogue {
    if !Succeeds(d, verb, arg, users) then d
    else
      match verb
      case USER => d.(user := arg)
      case PASS => Dialogue(TRANSACTION, d.user, mailbox, {}, {})
      case DELE => d.(marked := d.marked + {Atoi(arg)})
      case RSET => d.(marked := {})
      case QUIT => d.(phase := UPDATE, removed := if d.phase == TRANSACTION then d.marked else d.removed)
      case _ => d
  }

  /** The mails that LIST is about, from number `n` on. */
  function StandingFrom(d: Dialogue, n: nat): seq<MailInfo>
    requires 1 <= n <= |d.mailbox| + 1
    decreases |d.mailbox| + 1 - n
  {
    if n == |d.mailbox| + 1 then []
    else (if n in d.marked then [] else [MailInfo(n, |d.mailbox[n - 1]|)]) + StandingFrom(d, n + 1)
  }

  function Sizes(infos: seq<MailInfo>): int {
    if infos == [] then 0 else infos[0].sizeInBytes + Sizes(infos[1..])
  }

  /** An answer of one line with that indicator. */
  predicate Indicates(reply: string, indicator: string) {
    IsLine(reply) && indicator <= reply
  }

  function ReadPairs(lines: seq<string>): seq<MailInfo> {
    if lines == [] then [] else [ReadPair(lines[0])] + ReadPairs(lines[1..])
  }

  /** The lines between the first and the last. */
  function Between(lines: seq<string>): seq<string> {
    if |lines| < 2 then [] else lines[1..|lines| - 1]
  }

  /** The mails a client reads off an answer to LIST. */
  function ReadListing(reply: string): seq<MailInfo> {
    ReadPairs(Between(TextLines(reply)))
  }

  /** A status line with the number of mails, then a line for each of them, then a dot; and a line too many when the
      last mail is marked. */
  predicate SaysList(d: Dialogue, reply: string) {
    var lines, remaining := TextLines(reply), StandingFrom(d, 1);
    && |lines| >= 2 && lines[|lines| - 1] == "."
    && Nth(lines[0], 0) == "+OK" && NumberIn(Nth(lines[0], 3)) == |remaining|
    && |Between(lines)| == |remaining| + (if |d.mailbox| in d.marked then 1 else 0)
    && ReadPairs(Between(lines)[..|remaining|]) == remaining
    && forall i | 0 <= i < |remaining| :: Numeral(Before(Between(lines)[i], ' '))
  }

  /** A status line, the stuffed mail, and its end if there was room for it. */
  ghost predicate SaysMail(body: string, reply: string, room: int) {
    Intact(body) ==>
      exists status :: Indicates(status, "+OK") &&
        if room >= 5 then reply == status + Stuff(body) + "\r\n.\r\n"
        else reply == status + Stuff(body) || reply + "." == status + Stuff(body)
  }

  /** A status line and lines up to a dot. */
  predicate SaysCapabilities(reply: string) {
    var ls := TextLines(reply);
    |ls| >= 2 && "+OK" <= ls[0] && ls[|ls| - 1] == "." && "USER" in ls && "PIPELINING" in ls
  }

  /** The answer to a request that is understood. */
  ghost predicate Says(d: Dialogue, verb: Verb, arg: string, users: seq<User>, reply: string, room: int) {
    if !Succeeds(d, verb, arg, users) then Indicates(reply, "-ERR")
    else
      match verb
      case STAT => SaysTwo(reply, |StandingFrom(d, 1)|, Sizes(StandingFrom(d, 1)))
      case LIST => if arg == "" then SaysList(d, reply) else SaysTwo(reply, Atoi(arg), |d.mailbox[Atoi(arg) - 1]|)
      case RETR => SaysMail(d.mailbox[Atoi(arg) - 1], reply, room)
      case CAPA => SaysCapabilities(reply)
      case _ => Indicates(reply, "+OK")
  }

  // ---------- a session and the dialogue that led to it ----------

  predicate SameMails(mails: seq<Mail>, d: Dialogue) {
    && |mails| == |d.mailbox|
    && (forall i | 0 <= i < |mails| ::
          && mails[i].body == d.mailbox[i] && mails[i].sizeInBytes == |d.mailbox[i]|
          && (mails[i].toDelete <==> i + 1 in d.marked))
    && forall n | n in d.marked :: 1 <= n <= |mails|
  }

  ghost predicate Told(s: Sess, d: Dialogue) {
    && s.state == d.phase && s.username == d.user && d.phase != ANY
    && match s.store
       case None => d.mailbox == [] && d.marked == {} && d.removed == {} && d.phase != TRANSACTION
       case Some(store) =>
         && SameMails(store.mails, d) && d.phase != AUTHENTICATION
         && (forall n :: n in d.removed <==> n in store.unlinked)
         && (d.phase == TRANSACTION ==> store.unlinked == [])
  }

  lemma StandingIsValid(mails: seq<Mail>, d: Dialogue, n: int)
    requires SameMails(mails, d)
    ensures Standing(d, n) <==> ValidMailNo(mails, n)
    ensures Standing(d, n) ==> mails[n - 1].body == d.mailbox[n - 1] && mails[n - 1].sizeInBytes == |d.mailbox[n - 1]|
  {
  }

  lemma {:induction false} StandingCounts(mails: seq<Mail>, d: Dialogue, n: nat)
    requires SameMails(mails, d) && 1 <= n <= |d.mailbox| + 1
    ensures |StandingFrom(d, n)| == |mails[n - 1..]| - CountMarked(mails[n - 1..])
    ensures Sizes(StandingFrom(d, n)) == SizeOfUnmarked(mails[n - 1..])
    decreases |d.mailbox| + 1 - n
  {
    if n <= |d.mailbox| {
      StandingCounts(mails, d, n + 1);
      assert mails[n - 1..][0] == mails[n - 1] && mails[n - 1..][1..] == mails[n..];
      if n !in d.marked {
        var first, rest := MailInfo(n, |d.mailbox[n - 1]|), StandingFrom(d, n + 1);
        assert StandingFrom(d, n) == [first] + rest && ([first] + rest)[1..] == rest;
      } else {
        assert [] + StandingFrom(d, n + 1) == StandingFrom(d, n + 1);
      }
    }
  }

  // ---------- what LIST sends is read as the mails that remain ----------

  /** Lines that are read as these mails. */
  predicate ReadsAs(lines: seq<string>, infos: seq<MailInfo>) {
    |lines| == |infos| && ReadPairs(lines) == infos && forall i | 0 <= i < |lines| :: Numeral(Before(lines[i], ' '))
  }

  lemma OneMoreLine(l: string, info: MailInfo, lines: seq<string>, infos: seq<MailInfo>)
    requires ReadsAs(lines, infos) && ReadPair(l) == info && Numeral(Before(l, ' '))
    ensures ReadsAs([l] + lines, [info] + infos)
  {
    hide ReadPair, Numeral, Before;
    assert ([l] + lines)[1..] == lines;
  }

  lemma ListLinesStep(mails: seq<Mail>, d: Dialogue, n: nat)
    requires SameMails(mails, d) && 1 <= n <= |d.mailbox|
    ensures var info := MailInfo(n, |d.mailbox[n - 1]|);
            && ListLines(mails, n - 1) == (if n in d.marked then "" else ListLine(info)) + ListLines(mails, n)
            && StandingFrom(d, n) == (if n in d.marked then [] else [info]) + StandingFrom(d, n + 1)
  {
    hide ListLine;
  }

  lemma ListLinesEnd(mails: seq<Mail>, d: Dialogue)
    requires SameMails(mails, d)
    ensures ListLines(mails, |d.mailbox|) == "" && StandingFrom(d, |d.mailbox| + 1) == []
  {
  }

  lemma {:induction false} ListLinesRead(mails: seq<Mail>, d: Dialogue, n: nat, rest: string)
    returns (lines: seq<string>)
    requires SameMails(mails, d) && 1 <= n <= |d.mailbox| + 1
    ensures TextLines(ListLines(mails, n - 1) + rest) == lines + TextLines(rest) && ReadsAs(lines, StandingFrom(d, n))
    decreases |d.mailbox| + 1 - n
  {
    hide ListLine, TextLines, ReadPair, Numeral, ReadsAs, Before, ListLines, StandingFrom;
    if n == |d.mailbox| + 1 {
      lines := [];
      ListLinesEnd(mails, d);
      assert "" + rest == rest && [] + TextLines(rest) == TextLines(rest);
      NoLinesRead();
    } else {
      lines := ListLinesRead(mails, d, n + 1, rest);
      ListLinesStep(mails, d, n);
      var more := ListLines(mails, n);
      if n in d.marked {
        assert "" + more == more && [] + StandingFrom(d, n + 1) == StandingFrom(d, n + 1);
      } else {
        var l := LineInFront(MailInfo(n, |d.mailbox[n - 1]|), more, rest, lines);
        OneMoreLine(l, MailInfo(n, |d.mailbox[n - 1]|), lines, StandingFrom(d, n + 1));
        lines := [l] + lines;
      }
    }
  }

  lemma NoLinesRead()
    ensures ReadsAs([], [])
  {
  }

  lemma LineInFront(info: MailInfo, more: string, rest: string, lines: seq<string>) returns (l: string)
    requires info.mailNo >= 0 && info.sizeInBytes >= 0 && TextLines(more + rest) == lines + TextLines(rest)
    ensures TextLines(ListLine(info) + more + rest) == ([l] + lines) + TextLines(rest)
    ensures ReadPair(l) == info && Numeral(Before(l, ' '))
  {
    hide ListLine, TextLines, ReadPair, Numeral, Before;
    ListLineRead(info.mailNo, info.sizeInBytes, more + rest);
    l :| TextLines(ListLine(info) + (more + rest)) == [l] + TextLines(more + rest)
         && ReadPair(l) == info && Numeral(Before(l, ' '));
    assert ListLine(info) + (more + rest) == ListLine(info) + more + rest;
    assert [l] + (lines + TextLines(rest)) == ([l] + lines) + TextLines(rest);
  }

  lemma EndRead()
    ensures TextLines(LIST_END) == ["."]
  {
    OneLine(".");
    assert LIST_END == "." + "\r\n";
  }

  lemma ListTexts(header: string, lines: string, extra: string, end: string)
    ensures header + lines + extra + end == header + (lines + (extra + end))
  {
  }

  lemma ListSaid(d: Dialogue, reply: string, status: string, lines: seq<string>, last: seq<string>)
    requires TextLines(reply) == [status] + lines + last + ["."] && ReadsAs(lines, StandingFrom(d, 1))
    requires Nth(status, 0) == "+OK" && NumberIn(Nth(status, 3)) == |StandingFrom(d, 1)|
    requires |last| == if |d.mailbox| in d.marked then 1 else 0
    ensures SaysList(d, reply)
  {
    hide TextLines, ReadPairs, StandingFrom, Nth, NumberIn, Numeral, Before;
    var all := TextLines(reply);
    assert all[1..|all| - 1] == lines + last;
    assert (lines + last)[..|lines|] == lines;
    assert forall i | 0 <= i < |lines| :: (lines + last)[i] == lines[i];
  }

  /** The end of the list, with a line about nothing in particular in front of it. */
  lemma TailRead(extra: string, info: MailInfo) returns (last: seq<string>)
    requires extra == "" || extra == ListLine(info)
    ensures TextLines(extra + LIST_END) == last + ["."] && |last| == if extra == "" then 0 else 1
  {
    hide ListLine, TextLines, LIST_END;
    EndRead();
    if extra == "" {
      last := [];
      assert "" + LIST_END == LIST_END && [] + ["."] == ["."];
    } else {
      ListLineIsOne(info, LIST_END);
      var l :| TextLines(ListLine(info) + LIST_END) == [l] + TextLines(LIST_END);
      last := [l];
    }
  }

  lemma ListLineNotEmpty(info: MailInfo)
    ensures ListLine(info) != ""
  {
  }

  lemma ListPartsRead(mails: seq<Mail>, d: Dialogue, reply: string, extra: string, info: MailInfo)
    requires SameMails(mails, d) && ListReplyWith(mails, reply, extra)
    requires extra == if |d.mailbox| in d.marked then ListLine(info) else ""
    ensures SaysList(d, reply)
  {
    hide ListLine, TextLines, ReadsAs, ListHeader, CountMarked, ListLines, Nth, NumberIn, LIST_END, StandingFrom,
      SaysList;
    StandingCounts(mails, d, 1);
    assert mails[0..] == mails;
    ListLineNotEmpty(info);
    var last := TailRead(extra, info);
    var tail := extra + LIST_END;
    var lines := ListLinesRead(mails, d, 1, tail);
    ListTexts(ListHeader(|StandingFrom(d, 1)|), ListLines(mails, 0), extra, LIST_END);
    HeaderRead(|StandingFrom(d, 1)|, ListLines(mails, 0) + tail);
    var status :| TextLines(ListHeader(|StandingFrom(d, 1)|) + (ListLines(mails, 0) + tail))
                  == [status] + TextLines(ListLines(mails, 0) + tail)
                  && Nth(status, 0) == "+OK" && NumberIn(Nth(status, 3)) == |StandingFrom(d, 1)|;
    Join4(status, lines, last);
    ListSaid(d, reply, status, lines, last);
  }

  lemma Join4(status: string, lines: seq<string>, last: seq<string>)
    ensures [status] + (lines + (last + ["."])) == [status] + lines + last + ["."]
  {
  }

  lemma ListRead(mails: seq<Mail>, d: Dialogue, reply: string)
    requires SameMails(mails, d) && ListReply(mails, reply)
    ensures SaysList(d, reply)
  {
    hide ListLine, SaysList, ListReplyWith;
    if LastMarked(mails) {
      var info :| ListReplyWith(mails, reply, ListLine(info));
      ListPartsRead(mails, d, reply, ListLine(info), info);
    } else {
      ListPartsRead(mails, d, reply, "", MailInfo(0, 0));
    }
  }

  // ---------- every answer is one the client can read ----------

  lemma OkLines()
    ensures Indicates(USER_RECEIVED, "+OK") && Indicates(WELCOME, "+OK") && Indicates(OK_LINE, "+OK")
            && Indicates(MARKED, "+OK")
    ensures Indicates(UNMARKED, "+OK") && Indicates(EXITING, "+OK") && Indicates(MESSAGE_FOLLOWS, "+OK")
  {
  }

  /** The first thing the client reads. */
  lemma GreetingRead()
    ensures Indicates(GREETING, "+OK")
  {
  }

  lemma ErrLines()
    ensures Indicates(INVALID_COMMAND, "-ERR") && Indicates(INVALID_STATE, "-ERR")
            && Indicates(AUTHENTICATION_FAILED, "-ERR")
    ensures Indicates(ALREADY_CONNECTED, "-ERR") && Indicates(NO_SUCH_EMAIL, "-ERR")
            && Indicates(NO_SUCH_MESSAGE, "-ERR")
  {
    hide Indicates;
    InvalidLines();
    LoginLines();
    NoMailLines();
  }

  lemma InvalidLines()
    ensures Indicates(INVALID_COMMAND, "-ERR") && Indicates(INVALID_STATE, "-ERR")
  {
  }

  lemma LoginLines()
    ensures Indicates(AUTHENTICATION_FAILED, "-ERR") && Indicates(ALREADY_CONNECTED, "-ERR")
  {
  }

  lemma NoMailLines()
    ensures Indicates(NO_SUCH_EMAIL, "-ERR") && Indicates(NO_SUCH_MESSAGE, "-ERR")
  {
  }

  lemma CapabilitiesRead()
    ensures SaysCapabilities(CAPABILITIES)
  {
    hide TextLines;
    FirstLine("+OK Capability list follows", "USER\r\nPIPELINING\r\n.\r\n");
    FirstLine("USER", "PIPELINING\r\n.\r\n");
    FirstLine("PIPELINING", ".\r\n");
    OneLine(".");
    CapabilitiesText();
    CapabilityLines();
  }

  lemma CapabilitiesText()
    ensures CAPABILITIES == "+OK Capability list follows" + "\r\n" + "USER\r\nPIPELINING\r\n.\r\n"
  {
  }

  lemma CapabilityLines()
    ensures "USER\r\nPIPELINING\r\n.\r\n" == "USER" + "\r\n" + "PIPELINING\r\n.\r\n"
    ensures "PIPELINING\r\n.\r\n" == "PIPELINING" + "\r\n" + ".\r\n" && ".\r\n" == "." + "\r\n"
  {
  }

  /** The job is one for that command, in the state the table has for it. */
  predicate For(job: Job, verb: Verb) {
    job.callback.Some? && job.callback.value.verb == verb && job.callback.value.stateNeeded == Needed(verb)
  }

  /** The answer is the one the reference gives, and the session goes where the dialogue goes. */
  ghost predicate Follows(d: Dialogue, job: Job, verb: Verb, env: Env, reply: string, s': Sess, room: int) {
    && Says(d, verb, job.arg1, env.users, reply, room)
    && Told(s', After(d, verb, job.arg1, env.users, env.mailbox))
  }

  lemma Refused(s: Sess, d: Dialogue, job: Job, verb: Verb, env: Env, reply: string, s': Sess, room: int)
    requires Told(s, d) && For(job, verb) && Serves(s, job, env, reply, s', room) && !InPhase(d, verb)
    ensures Follows(d, job, verb, env, reply, s', room)
  {
    hide SameMails, Indicates;
    ErrLines();
  }

  lemma UserFollows(s: Sess, d: Dialogue, job: Job, env: Env, reply: string, s': Sess, room: int)
    requires Told(s, d) && For(job, USER) && Serves(s, job, env, reply, s', room) && InPhase(d, USER)
    ensures Follows(d, job, USER, env, reply, s', room)
  {
    hide Indicates;
    OkLines();
  }

  lemma PassFollows(s: Sess, d: Dialogue, job: Job, env: Env, reply: string, s': Sess, room: int)
    requires Told(s, d) && For(job, PASS) && Serves(s, job, env, reply, s', room) && InPhase(d, PASS)
    ensures Follows(d, job, PASS, env, reply, s', room)
  {
    hide Indicates, InitCache, ValidPassword, IsConnected;
    OkLines();
    ErrLines();
    InitCacheIs(env.mailbox);
  }

  lemma PlainFollows(s: Sess, d: Dialogue, job: Job, verb: Verb, env: Env, reply: string, s': Sess, room: int)
    requires Told(s, d) && For(job, verb) && Serves(s, job, env, reply, s', room) && InPhase(d, verb)
    requires verb == NOOP || verb == CAPA
    ensures Follows(d, job, verb, env, reply, s', room)
  {
    hide Indicates, SaysCapabilities, CAPABILITIES;
    OkLines();
    CapabilitiesRead();
  }

  lemma QuitFollows(s: Sess, d: Dialogue, job: Job, env: Env, reply: string, s': Sess, room: int)
    requires Told(s, d) && For(job, QUIT) && Serves(s, job, env, reply, s', room)
    ensures Follows(d, job, QUIT, env, reply, s', room)
  {
    hide Indicates, MarkedNumbers;
    OkLines();
    if s.state == TRANSACTION {
      var mails := s.store.value.mails;
      MarkedNumbersMember(mails, |mails|);
      forall n
        ensures n in d.marked <==> n in [] + MarkedNumbers(mails, |mails|)
      {
        assert n in d.marked ==> mails[n - 1].toDelete;
      }
    }
  }

  lemma StatFollows(s: Sess, d: Dialogue, job: Job, env: Env, reply: string, s': Sess, room: int)
    requires Told(s, d) && For(job, STAT) && Serves(s, job, env, reply, s', room) && InPhase(d, STAT)
    ensures Follows(d, job, STAT, env, reply, s', room)
  {
    hide SaysTwo, CountMarked, SizeOfUnmarked, Decimal;
    var mails := s.store.value.mails;
    StandingCounts(mails, d, 1);
    assert mails[0..] == mails;
    TwoRead(|mails| - CountMarked(mails), SizeOfUnmarked(mails));
  }

  lemma ListFollows(s: Sess, d: Dialogue, job: Job, env: Env, reply: string, s': Sess, room: int)
    requires Told(s, d) && For(job, LIST) && Serves(s, job, env, reply, s', room) && InPhase(d, LIST)
    ensures Follows(d, job, LIST, env, reply, s', room)
  {
    hide SaysTwo, SaysList, ListReply, Decimal, Indicates, Atoi;
    ErrLines();
    var mails, n := s.store.value.mails, Atoi(job.arg1);
    StandingIsValid(mails, d, n);
    if job.arg1 == "" {
      ListRead(mails, d, reply);
    } else if Standing(d, n) {
      TwoRead(n, |d.mailbox[n - 1]|);
      ListOneText(Decimal(n), Decimal(|d.mailbox[n - 1]|));
    }
  }

  lemma ListOneText(a: string, b: string)
    ensures "+OK " + (a + " " + b + "\r\n") == "+OK " + a + " " + b + "\r\n"
  {
  }

  lemma RetrFollows(s: Sess, d: Dialogue, job: Job, env: Env, reply: string, s': Sess, room: int)
    requires Told(s, d) && For(job, RETR) && Serves(s, job, env, reply, s', room) && InPhase(d, RETR)
    ensures Follows(d, job, RETR, env, reply, s', room)
  {
    hide Indicates, Atoi, Stuff, Intact, SaysMail;
    ErrLines();
    StandingIsValid(s.store.value.mails, d, Atoi(job.arg1));
    if Standing(d, Atoi(job.arg1)) {
      MailRead(d.mailbox[Atoi(job.arg1) - 1], reply, room);
    }
  }

  lemma MailRead(body: string, reply: string, room: int)
    requires RetrReply(body, reply, room)
    ensures SaysMail(body, reply, room)
  {
    hide Indicates, Stuff, Intact;
    OkLines();
    assert Indicates(MESSAGE_FOLLOWS, "+OK");
  }

  lemma DeleFollows(s: Sess, d: Dialogue, job: Job, env: Env, reply: string, s': Sess, room: int)
    requires Told(s, d) && For(job, DELE) && Serves(s, job, env, reply, s', room) && InPhase(d, DELE)
    ensures Follows(d, job, DELE, env, reply, s', room)
  {
    hide Indicates, Atoi;
    OkLines();
    ErrLines();
    StandingIsValid(s.store.value.mails, d, Atoi(job.arg1));
  }

  lemma RsetFollows(s: Sess, d: Dialogue, job: Job, env: Env, reply: string, s': Sess, room: int)
    requires Told(s, d) && For(job, RSET) && Serves(s, job, env, reply, s', room) && InPhase(d, RSET)
    ensures Follows(d, job, RSET, env, reply, s', room)
  {
    hide Indicates;
    OkLines();
  }

  lemma VerbFollows(s: Sess, d: Dialogue, job: Job, verb: Verb, env: Env, reply: string, s': Sess, room: int)
    requires Told(s, d) && For(job, verb) && Serves(s, job, env, reply, s', room)
    ensures Follows(d, job, verb, env, reply, s', room)
  {
    hide Told, Serves, Follows, For;
    if !InPhase(d, verb) {
      Refused(s, d, job, verb, env, reply, s', room);
    } else {
      match verb
      case USER => UserFollows(s, d, job, env, reply, s', room);
      case PASS => PassFollows(s, d, job, env, reply, s', room);
      case NOOP => PlainFollows(s, d, job, verb, env, reply, s', room);
      case CAPA => PlainFollows(s, d, job, verb, env, reply, s', room);
      case QUIT => QuitFollows(s, d, job, env, reply, s', room);
      case STAT => StatFollows(s, d, job, env, reply, s', room);
      case LIST => ListFollows(s, d, job, env, reply, s', room);
      case RETR => RetrFollows(s, d, job, env, reply, s', room);
      case DELE => DeleFollows(s, d, job, env, reply, s', room);
      case RSET => RsetFollows(s, d, job, env, reply, s', room);
    }
  }

  // ---------- every log is a dialogue ----------

  /** The request in a line that was received: the command its name stands for, if the line is one the server takes. */
  function Requested(c: FullCommand): Option<Verb> {
    if c.status == COMPLETE then VerbNamed(c.command) else None
  }

  /** The answer to an entry of the log. */
  ghost predicate Spoken(d: Dialogue, e: Entry) {
    match Requested(e.cmd)
    case None => Indicates(e.reply, "-ERR")
    case Some(verb) => Says(d, verb, e.cmd.arg1, e.env.users, e.reply, e.room)
  }

  function Turned(d: Dialogue, e: Entry): Dialogue {
    match Requested(e.cmd)
    case None => d
    case Some(verb) => if e.done then After(d, verb, e.cmd.arg1, e.env.users, e.env.mailbox) else d
  }

  /** The dialogue that the first entries of a log make. */
  function DialogueOf(log: seq<Entry>): Dialogue {
    if log == [] then OPENING else Turned(DialogueOf(log[..|log| - 1]), log[|log| - 1])
  }

  lemma RequestIsEntry(e: Entry)
    requires EntryOk(e)
    ensures match Requested(e.cmd)
            case None => e.cmd.executeCommand == None
            case Some(verb) => For(JobOf(e.cmd), verb)
  {
    hide Serves, PartOfReply, Lookup, InTable, VerbNamed, Needed;
    assert [e.cmd][0] == e.cmd;
    LookupIs(e.cmd.command);
  }

  lemma EntrySpoken(e: Entry, d: Dialogue)
    requires EntryOk(e) && Told(e.before, d)
    ensures e.done ==> Spoken(d, e)
    ensures Told(e.after, Turned(d, e))
  {
    hide Told, Requested, For, Says, After, FromTable, PartOfReply;
    RequestIsEntry(e);
    ErrLines();
    if e.done {
      match Requested(e.cmd) {
        case None =>
          NoRequest(e);
        case Some(verb) =>
          hide Serves;
          VerbFollows(e.before, d, JobOf(e.cmd), verb, e.env, e.reply, e.after, e.room);
      }
    }
  }

  lemma NoRequest(e: Entry)
    requires EntryOk(e) && e.done && e.cmd.executeCommand == None
    ensures e.reply == INVALID_COMMAND && e.after == e.before
  {
  }

  lemma {:induction false} LogIsDialogue(log: seq<Entry>)
    requires LogOk(log)
    ensures Told(LastSess(log), DialogueOf(log))
    decreases |log|
  {
    hide EntryOk, Turned;
    if log != [] {
      var before, e := log[..|log| - 1], log[|log| - 1];
      assert forall i | 0 <= i < |before| :: before[i] == log[i] && before[..i] == log[..i];
      LogIsDialogue(before);
      EntrySpoken(e, DialogueOf(before));
    }
  }

  // ---------- over runs ----------

  /** In every run each finished answer is the one the reference gives to its request after the requests before it,
      and the session of an open connection is the one that the dialogue has come to. */
  lemma Conversation(states: seq<State>, events: seq<Event>, k: nat, i: nat)
    requires IsRun(states, events) && k < |states| && i < |states[k].hist.log|
    ensures var log := states[k].hist.log;
            && (log[i].done ==> Spoken(DialogueOf(log[..i]), log[i]))
            && Told(log[i].before, DialogueOf(log[..i]))
    ensures states[k].conn.open ==> Told(SessOf(states[k].conn), DialogueOf(states[k].hist.log))
  {
    hide IsRun, ReceiveAll, CommandsOf, RepliesOf, EntryOk, ConnOk, Told, Spoken, DialogueOf, Turned;
    RunInv(states, events, k);
    var log := states[k].hist.log;
    assert LogOk(log);
    LogPrefix(log, i);
    LogIsDialogue(log[..i]);
    LogIsDialogue(log);
    EntrySpoken(log[i], DialogueOf(log[..i]));
  }

  lemma LogPrefix(log: seq<Entry>, i: nat)
    requires LogOk(log) && i < |log|
    ensures LogOk(log[..i]) && EntryOk(log[i]) && log[i].before == LastSess(log[..i])
  {
    hide EntryOk;
    assert forall j | 0 <= j < i :: log[..i][j] == log[j] && log[..i][..j] == log[..j];
  }

  // ---------- one mailbox to a connection ----------

  /** A login that was welcomed. */
  predicate Welcomed(e: Entry) {
    e.done && Requested(e.cmd) == Some(PASS) && "+OK" <= e.reply
  }

  ghost predicate OpenedBy(log: seq<Entry>, j: nat) {
    && j < |log| && Welcomed(log[j]) && DialogueOf(log).mailbox == log[j].env.mailbox
    && forall i | 0 <= i < |log| && Welcomed(log[i]) :: i == j
  }

  lemma WelcomedIsPass(e: Entry, d: Dialogue)
    requires EntryOk(e) && Told(e.before, d)
    ensures Welcomed(e) ==>
              d.phase == AUTHENTICATION && Turned(d, e).phase == TRANSACTION && Turned(d, e).mailbox == e.env.mailbox
    ensures !Welcomed(e) ==>
              Turned(d, e).mailbox == d.mailbox
              && (d.phase != TRANSACTION ==> Turned(d, e).phase != TRANSACTION)
    ensures d.phase != AUTHENTICATION ==> Turned(d, e).phase != AUTHENTICATION
  {
    hide Told, SaysList, SaysTwo, SaysMail, SaysCapabilities, ValidPassword, IsConnected, Atoi, EntryOk, VerbNamed;
    EntrySpoken(e, d);
    OneIndicator(e.reply);
  }

  lemma OneIndicator(reply: string)
    ensures !("+OK" <= reply && "-ERR" <= reply)
  {
    assert "+OK" <= reply ==> reply[0] == "+OK"[0];
    assert "-ERR" <= reply ==> reply[0] == "-ERR"[0];
  }

  ghost predicate NobodyWelcomed(log: seq<Entry>) {
    forall i | 0 <= i < |log| :: !Welcomed(log[i])
  }

  /** Either nobody was welcomed yet and there is no mailbox, or one login was. */
  ghost predicate LoginTold(log: seq<Entry>) {
    var d := DialogueOf(log);
    && (d.phase == AUTHENTICATION ==> NobodyWelcomed(log))
    && ((exists j: nat :: OpenedBy(log, j)) || (d.mailbox == [] && d.phase != TRANSACTION && NobodyWelcomed(log)))
  }

  lemma LoginStep(before: seq<Entry>, e: Entry)
    requires LoginTold(before)
    requires var d, d' := DialogueOf(before), Turned(DialogueOf(before), e);
             && (Welcomed(e) ==> d.phase == AUTHENTICATION && d'.phase == TRANSACTION && d'.mailbox == e.env.mailbox)
             && (!Welcomed(e) ==> d'.mailbox == d.mailbox)
             && (!Welcomed(e) && d.phase != TRANSACTION ==> d'.phase != TRANSACTION)
             && (d.phase != AUTHENTICATION ==> d'.phase != AUTHENTICATION)
    ensures LoginTold(before + [e])
  {
    hide Welcomed, Turned, DialogueOf, NobodyWelcomed, OpenedBy;
    var log := before + [e];
    OneMoreEntry(before, e);
    if Welcomed(e) {
      FirstWelcome(before, e);
    } else {
      StillNobody(before, e);
      if j: nat :| OpenedBy(before, j) {
        StillOpened(before, e, j);
      }
    }
  }

  lemma OneMoreEntry(before: seq<Entry>, e: Entry)
    ensures DialogueOf(before + [e]) == Turned(DialogueOf(before), e)
  {
    hide Turned;
    assert (before + [e])[..|before|] == before;
  }

  lemma FirstWelcome(before: seq<Entry>, e: Entry)
    requires NobodyWelcomed(before) && Welcomed(e) && DialogueOf(before + [e]).mailbox == e.env.mailbox
    ensures OpenedBy(before + [e], |before|)
  {
    hide Welcomed, DialogueOf;
  }

  lemma StillNobody(before: seq<Entry>, e: Entry)
    requires !Welcomed(e)
    ensures NobodyWelcomed(before + [e]) <==> NobodyWelcomed(before)
  {
    hide Welcomed;
    assert forall i | 0 <= i < |before| :: before[i] == (before + [e])[i];
  }

  lemma StillOpened(before: seq<Entry>, e: Entry, j: nat)
    requires OpenedBy(before, j) && !Welcomed(e) && DialogueOf(before + [e]).mailbox == DialogueOf(before).mailbox
    ensures OpenedBy(before + [e], j)
  {
    hide Welcomed, DialogueOf;
  }

  /** The mailbox of a session is that of the one login of its connection that was welcomed; before it there is none. */
  lemma {:induction false} OneLogin(log: seq<Entry>)
    requires LogOk(log)
    ensures LoginTold(log)
    decreases |log|
  {
    hide EntryOk, Turned, Welcomed, LoginTold, Told;
    if log == [] {
      NoLogin();
    } else {
      var before, e := log[..|log| - 1], log[|log| - 1];
      assert log == before + [e];
      LogPrefix(log, |log| - 1);
      OneLogin(before);
      LogIsDialogue(before);
      WelcomedIsPass(e, DialogueOf(before));
      LoginStep(before, e);
    }
  }

  lemma NoLogin()
    ensures LoginTold([])
  {
  }

  lemma TransactionHasLogin(log: seq<Entry>) returns (login: nat)
    requires LogOk(log) && DialogueOf(log).phase == TRANSACTION
    ensures OpenedBy(log, login)
  {
    hide DialogueOf, OpenedBy, NobodyWelcomed, LogOk;
    OneLogin(log);
    login :| OpenedBy(log, login);
  }
}
