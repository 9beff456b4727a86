/** The replies a connection owes: a server that answers one command at a time into unlimited space. */
module Replies {
  import opened Text
  import opened Commands
  import opened Parsing
  import opened Stuffing
  import opened Streaming
  import opened Mailbox
  import opened Users
  import opened Session

  /** What lasts from one command to the next. */
  datatype Store = Store(mails: seq<Mail>, unlinked: seq<nat>)
  datatype Sess = Sess(state: PopState, username: string, store: Option<Store>)

  function SessOf(c: Conn): Sess {
    Sess(c.sessionState, c.username,
         if c.cache.Some? then Some(Store(c.cache.value.mails, c.cache.value.unlinked)) else None)
  }

  /** The lines of the mails that are not marked, from the one at index `i` on. */
  function ListLines(mails: seq<Mail>, i: nat): string
    requires i <= |mails|
    decreases |mails| - i
  {
    if i == |mails| then ""
    else (if mails[i].toDelete then "" else ListLine(MailInfo(i + 1, mails[i].sizeInBytes))) + ListLines(mails, i + 1)
  }

  predicate LastMarked(mails: seq<Mail>) {
    mails != [] && mails[|mails| - 1].toDelete
  }

  /** One line about nothing in particular follows the list when the last mail is marked. */
  ghost predicate ListReply(mails: seq<Mail>, reply: string) {
    if LastMarked(mails) then exists info :: ListReplyWith(mails, reply, ListLine(info))
    else ListReplyWith(mails, reply, "")
  }

  predicate ListReplyWith(mails: seq<Mail>, reply: string, extra: string) {
    reply == ListHeader(|mails| - CountMarked(mails)) + ListLines(mails, 0) + extra + LIST_END
  }

  /** `room`: the free space of the output buffer after the last piece of the mail was put there. */
  ghost predicate RetrReply(body: string, reply: string, room: int) {
    Intact(body) ==>
      if room >= |MAIL_END| then reply == MESSAGE_FOLLOWS + Stuff(body) + MAIL_END
      else reply == MESSAGE_FOLLOWS + Stuff(body) || reply + "." == MESSAGE_FOLLOWS + Stuff(body)
  }

  /** The reply to a command and the session after it. */
  ghost predicate Serves(s: Sess, job: Job, env: Env, reply: string, s': Sess, room: int) {
    if job.callback == None then reply == INVALID_COMMAND && s' == s
    else if job.callback.value.stateNeeded != ANY && job.callback.value.stateNeeded != s.state then
      reply == INVALID_STATE && s' == s
    else
      match job.callback.value.verb
      case USER => reply == USER_RECEIVED && s' == s.(username := job.arg1)
      case PASS =>
        if !ValidPassword(env.users, s.username, job.arg1) then reply == AUTHENTICATION_FAILED && s' == s
        else if IsConnected(env.users, s.username) then reply == ALREADY_CONNECTED && s' == s
        else reply == WELCOME && s' == Sess(TRANSACTION, s.username, Some(Store(InitCache(env.mailbox).mails, [])))
      case NOOP => reply == OK_LINE && s' == s
      case CAPA => reply == CAPABILITIES && s' == s
      case QUIT =>
        && reply == EXITING
        && s' == Sess(UPDATE, s.username,
                      if s.state == TRANSACTION && s.store.Some? then
                        Some(s.store.value.(unlinked := s.store.value.unlinked
                                                        + MarkedNumbers(s.store.value.mails, |s.store.value.mails|)))
                      else s.store)
      case STAT =>
        s.store.Some? && s' == s
        && reply == StatLine(|s.store.value.mails| - CountMarked(s.store.value.mails),
          SizeOfUnmarked(s.store.value.mails))
      case LIST =>
        && s.store.Some? && s' == s
        && (if job.arg1 == "" then ListReply(s.store.value.mails, reply)
            else if ValidMailNo(s.store.value.mails, Atoi(job.arg1)) then
              reply == "+OK " + ListLine(MailInfo(Atoi(job.arg1), s.store.value.mails[Atoi(job.arg1) - 1].sizeInBytes))
            else reply == NO_SUCH_MESSAGE)
      case RETR =>
        && s.store.Some? && s' == s
        && (if ValidMailNo(s.store.value.mails, Atoi(job.arg1)) then
              RetrReply(s.store.value.mails[Atoi(job.arg1) - 1].body, reply, room)
            else reply == NO_SUCH_EMAIL)
      case DELE =>
        && s.store.Some?
        && var mails, n := s.store.value.mails, Atoi(job.arg1);
           if ValidMailNo(mails, n) then
             && reply == MARKED
             && s' == s.(store := Some(s.store.value.(mails := mails[n - 1 := mails[n - 1].(toDelete := true)])))
           else reply == NO_SUCH_EMAIL && s' == s
      case RSET =>
        && s.store.Some? && reply == UNMARKED
        && s' == s.(store := Some(s.store.value.(mails := Unmarked(s.store.value.mails))))
  }

  // ---------- what every reachable connection keeps ----------

  function TotalSize(mails: seq<Mail>): nat {
    if mails == [] then 0 else |mails[0].body| + TotalSize(mails[1..])
  }

  /** The counter agrees with the flags, the sizes noted at login are the files' sizes, and the numbers fit their C
      types. */
  ghost predicate CacheOk(cache: Cache) {
    && cache.markedToDelete == CountMarked(cache.mails)
    && (forall i | 0 <= i < |cache.mails| :: cache.mails[i].sizeInBytes == |cache.mails[i].body|)
    && |cache.mails| <= INT32_MAX && TotalSize(cache.mails) <= INT64_MAX
    && cache.position <= |cache.mails|
    && Reading(cache)
  }

  ghost predicate EnvOk(env: Env) {
    && |env.mailbox| <= INT32_MAX && TotalSize(InitCache(env.mailbox).mails) <= INT64_MAX
    && -INT32_MAX - 1 <= env.stale.mailNo <= INT32_MAX
    && -INT64_MAX - 1 <= env.stale.sizeInBytes <= INT64_MAX
  }

  ghost predicate ConnOk(c: Conn) {
    && |c.out| <= BUFFERSIZE && !c.crashed
    && (c.cache.Some? ==> CacheOk(c.cache.value))
    && Dispatchable(c)
  }

  /** A reply that is not complete yet belongs to a RETR or a LIST without argument, and what is missing is known. */
  ghost predicate InProgress(c: Conn, job: Job, reply: string) {
    && job.callback.Some? && c.cache.Some?
    && var mails := c.cache.value.mails;
       match job.callback.value.verb
       case RETR =>
         && ValidMailNo(mails, Atoi(job.arg1)) && c.cache.value.currentMail.Some? && Reading(c.cache.value)
         && var body := mails[Atoi(job.arg1) - 1].body;
            && c.cache.value.currentMail.value.body == body
            && (Intact(body) ==> reply + Left(c.cache.value) == MESSAGE_FOLLOWS + Stuff(body))
       case LIST =>
         && job.arg1 == "" && HasNext(c.cache.value)
         && reply + ListLines(mails, c.cache.value.position) ==
            ListHeader(|mails| - CountMarked(mails)) + ListLines(mails, 0)
       case _ => false
  }

  /** Only the output, the session state, the user name and the cache change, and output is only added. */
  ghost predicate OnlyAdds(c: Conn, c': Conn) {
    && c.out <= c'.out && |c'.out| <= BUFFERSIZE
    && c' == c.(out := c'.out, sessionState := c'.sessionState, username := c'.username, cache := c'.cache)
  }

  /** The free space a RETR that ends now leaves in front of its terminator. */
  function RoomAtEnd(c: Conn, job: Job): int {
    if c.cache == None then 0
    else
      var c1 := if !c.processing && ValidMailNo(c.cache.value.mails, Atoi(job.arg1))
        then RetrBegin(c, Atoi(job.arg1)) else c;
      if c1.cache.value.currentMail == None || FreeSpace(c1) < 0 then 0
      else FreeSpace(c1) - |GetN(c1.cache.value, FreeSpace(c1)).out|
  }

  /** What one call of a handler does for a command whose reply so far is `reply`. */
  ghost predicate Handles(before: Sess, c: Conn, job: Job, env: Env, reply: string, h: Handled) {
    && OnlyAdds(c, h.conn)
    && (h.conn.cache.Some? ==> CacheOk(h.conn.cache.value)) && CacheReady(h.conn)
    && var reply' := reply + h.conn.out[|c.out|..];
       if h.status == NOT_FINISHED then SessOf(h.conn) == before && InProgress(h.conn, job, reply')
       else Serves(before, job, env, reply', SessOf(h.conn), RoomAtEnd(c, job))
  }

  // ---------- single lines always fit ----------

  lemma ListLineFits(info: MailInfo)
    requires -INT32_MAX - 1 <= info.mailNo <= INT32_MAX && -INT64_MAX - 1 <= info.sizeInBytes <= INT64_MAX
    ensures |ListLine(info)| <= 40
  {
    DecimalLength(info.mailNo);
    DecimalLength(info.sizeInBytes);
  }

  lemma {:induction false} UnmarkedWithinTotal(mails: seq<Mail>)
    ensures SizeOfUnmarked(mails) <= TotalSize(mails)
  {
    if mails != [] {
      UnmarkedWithinTotal(mails[1..]);
    }
  }

  lemma {:induction false} SizeWithinTotal(mails: seq<Mail>, i: nat)
    requires i < |mails|
    ensures |mails[i].body| <= TotalSize(mails)
  {
    if i > 0 {
      SizeWithinTotal(mails[1..], i - 1);
    }
  }

  lemma StatLineFits(cache: Cache)
    requires CacheOk(cache)
    ensures |StatLine(AmountOfMails(cache), SizeOfUnmarked(cache.mails))| <= 50
    ensures |ListHeader(AmountOfMails(cache))| <= 60
  {
    CountMarkedBound(cache.mails);
    UnmarkedWithinTotal(cache.mails);
    DecimalLength(AmountOfMails(cache));
    DecimalLength(SizeOfUnmarked(cache.mails));
  }

  // ---------- marks keep the totals ----------

  lemma {:induction false} SameBodies(mails: seq<Mail>, mails': seq<Mail>)
    requires |mails'| == |mails| && forall i | 0 <= i < |mails| :: mails'[i].body == mails[i].body
    ensures TotalSize(mails') == TotalSize(mails)
  {
    if mails != [] {
      assert forall i | 0 <= i < |mails[1..]| :: mails'[1..][i].body == mails[1..][i].body;
      SameBodies(mails[1..], mails'[1..]);
    }
  }

  lemma MarkMailOk(cache: Cache, mailNo: int)
    requires CacheOk(cache) && ValidMailNo(cache.mails, mailNo)
    ensures CacheOk(MarkMail(cache, mailNo))
  {
    CountMarkedUpdate(cache.mails, mailNo - 1);
    SameBodies(cache.mails, MarkMail(cache, mailNo).mails);
  }

  lemma ResetToDeleteOk(cache: Cache)
    requires CacheOk(cache)
    ensures CacheOk(ResetToDelete(cache))
  {
    CountMarkedNone(Unmarked(cache.mails));
    SameBodies(cache.mails, Unmarked(cache.mails));
  }

  lemma InitCacheOk(env: Env)
    requires EnvOk(env)
    ensures CacheOk(InitCache(env.mailbox))
  {
    CountMarkedNone(InitCache(env.mailbox).mails);
  }

  // ---------- LIST ----------

  lemma {:induction false} NextLine(c: Cache, info: MailInfo)
    requires HasNext(c)
    ensures var next := NextListed(c, info);
            && c.position < next.cache.position <= |c.mails| && next.cache == c.(position := next.cache.position)
            && (next.code == 0 || next.code == FAILED_CODE)
            && (next.code == 0 ==>
                  && next.info == MailInfo(next.cache.position, c.mails[next.cache.position - 1].sizeInBytes)
                  && !c.mails[next.cache.position - 1].toDelete
                  && ListLines(c.mails, c.position) == ListLine(next.info) + ListLines(c.mails, next.cache.position))
            && (next.code != 0 ==>
                  next.info == info && next.cache.position == |c.mails| && LastMarked(c.mails)
                  && ListLines(c.mails, c.position) == "")
    decreases |c.mails| - c.position
  {
    var c' := c.(position := c.position + 1);
    if c.mails[c.position].toDelete {
      if HasNext(c') {
        NextLine(c', info);
      } else {
        assert ListLines(c.mails, c.position) == "" + ListLines(c.mails, c'.position);
      }
    }
  }

  ghost predicate InfoOk(info: MailInfo) {
    -INT32_MAX - 1 <= info.mailNo <= INT32_MAX && -INT64_MAX - 1 <= info.sizeInBytes <= INT64_MAX
  }

  /** One turn of the loop of `continueList`: always a line, which always fits. */
  lemma ContinueListTurn(c: Conn, info: MailInfo) returns (c1: Conn, info1: MailInfo)
    requires c.cache.Some? && CacheOk(c.cache.value) && InfoOk(info)
    requires |c.out| <= BUFFERSIZE && FreeSpace(c) > MAX_SINGLE_LINE_RESPONSE && HasNext(c.cache.value)
    ensures c1.cache.Some? && ContinueList(c, info) == ContinueList(c1, info1)
    ensures InfoOk(info1) && CacheOk(c1.cache.value)
            && c1.cache.value == c.cache.value.(position := c1.cache.value.position)
    ensures c.cache.value.position < c1.cache.value.position <= |c.cache.value.mails|
    ensures c1 == c.(out := c.out + ListLine(info1), cache := c1.cache)
    ensures FreeSpace(c1) >= |LIST_END|
    ensures var mails, i, j := c.cache.value.mails, c.cache.value.position, c1.cache.value.position;
            || ListLines(mails, i) == ListLine(info1) + ListLines(mails, j)
            || (j == |mails| && LastMarked(mails) && ListLines(mails, i) == "")
    ensures var mails, j := c.cache.value.mails, c1.cache.value.position;
            j == |mails| && LastMarked(mails) ==> ListLines(mails, c.cache.value.position) == ""
  {
    hide ListLine, CountMarked, TotalSize;
    var cache := c.cache.value;
    NextLine(cache, info);
    var next := NextListed(cache, info);
    if next.code == 0 {
      SizeWithinTotal(cache.mails, next.cache.position - 1);
    }
    ListLineFits(next.info);
    c1, info1 := c.(cache := Some(next.cache), out := c.out + ListLine(next.info)), next.info;
    assert WriteIfFits(c.(cache := Some(next.cache)), ListLine(next.info)) == c1;
  }

  /** The lines still to come, or one line too many when the loop ran off marked mails at the end. */
  ghost predicate ListAdded(mails: seq<Mail>, i: nat, j: nat, added: string)
    requires i <= j <= |mails|
  {
    if j < |mails| || i == j || !LastMarked(mails) then added + ListLines(mails, j) == ListLines(mails, i)
    else exists last :: added == ListLines(mails, i) + ListLine(last)
  }

  lemma ListAddedMore(mails: seq<Mail>, i: nat, k: nat, j: nat, line: MailInfo, added: string)
    requires i < k <= j <= |mails| && ListAdded(mails, k, j, added)
    requires ListLines(mails, i) == ListLine(line) + ListLines(mails, k)
    requires k < |mails| || !LastMarked(mails)
    ensures ListAdded(mails, i, j, ListLine(line) + added)
  {
    hide ListLine, LastMarked;
    if j < |mails| || k == j || !LastMarked(mails) {
      assert ListLine(line) + added + ListLines(mails, j) == ListLine(line) + (added + ListLines(mails, j));
    } else {
      var last :| added == ListLines(mails, k) + ListLine(last);
      assert ListLine(line) + added == ListLines(mails, i) + ListLine(last);
    }
  }

  lemma ListAddedLast(mails: seq<Mail>, i: nat, line: MailInfo)
    requires i < |mails| && LastMarked(mails) && ListLines(mails, i) == ""
    ensures ListAdded(mails, i, |mails|, ListLine(line))
  {
    assert ListLine(line) == ListLines(mails, i) + ListLine(line);
  }

  /** What one call of `continueList` writes. */
  lemma {:induction false} ContinueListLines(c: Conn, info: MailInfo)
    requires c.cache.Some? && CacheOk(c.cache.value) && InfoOk(info)
    requires |c.out| <= BUFFERSIZE && FreeSpace(c) >= |LIST_END|
    ensures var c' := ContinueList(c, info);
            && c.out <= c'.out && c' == c.(out := c'.out, cache := c'.cache) && FreeSpace(c') >= |LIST_END|
            && c'.cache.value == c.cache.value.(position := c'.cache.value.position)
            && c.cache.value.position <= c'.cache.value.position <= |c.cache.value.mails|
            && (FreeSpace(c) > MAX_SINGLE_LINE_RESPONSE && HasNext(c.cache.value) ==>
                  c'.cache.value.position > c.cache.value.position)
            && ListAdded(c.cache.value.mails, c.cache.value.position, c'.cache.value.position, c'.out[|c.out|..])
    decreases |c.cache.value.mails| - c.cache.value.position
  {
    hide ListLine, CountMarked, TotalSize, Reading, ListAdded, ListLines, NextListed, LastMarked;
    var cache := c.cache.value;
    if FreeSpace(c) > MAX_SINGLE_LINE_RESPONSE && HasNext(cache) {
      var c1, info1 := ContinueListTurn(c, info);
      ContinueListLines(c1, info1);
      var c' := ContinueList(c1, info1);
      var i, k, j := cache.position, c1.cache.value.position, c'.cache.value.position;
      assert c'.out[|c.out|..] == ListLine(info1) + c'.out[|c1.out|..];
      if k == |cache.mails| && LastMarked(cache.mails) {
        ContinueListStops(c1, info1);
        assert c'.out[|c1.out|..] == "";
        ListAddedLast(cache.mails, i, info1);
      } else {
        ListAddedMore(cache.mails, i, k, j, info1, c'.out[|c1.out|..]);
      }
    } else {
      assert ContinueList(c, info) == c && c.out[|c.out|..] == "";
      ListAddedNone(cache.mails, cache.position);
    }
  }

  lemma ContinueListStops(c: Conn, info: MailInfo)
    requires c.cache.Some? && !HasNext(c.cache.value)
    ensures ContinueList(c, info) == c
  {
  }

  lemma ListAddedNone(mails: seq<Mail>, i: nat)
    requires i <= |mails|
    ensures ListAdded(mails, i, i, "")
  {
  }
}
