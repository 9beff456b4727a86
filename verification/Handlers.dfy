/** Each handler serves its command: what it writes is the reply owed, whole or up to where it was suspended. */
module Handlers {
  import opened Text
  import opened Commands
  import opened Parsing
  import opened Stuffing
  import opened Streaming
  import opened Mailbox
  import opened Users
  import opened Session
  import opened Replies

  /** When a handler is called: there is room for a line, and a suspended command has written `reply` so far. */
  ghost predicate Callable(before: Sess, c: Conn, job: Job, env: Env, reply: string) {
    && ConnOk(c) && CanExecute(c) && EnvOk(env) && SessOf(c) == before
    && job.callback.Some? && InTable(job.callback.value) && Allowed(c, job.callback.value)
    && (if c.processing then InProgress(c, job, reply) else reply == "")
  }

  /** A reply of one line. */
  lemma WholeLine(c: Conn, c0: Conn, message: string, reply: string)
    requires |c.out| <= BUFFERSIZE && CanExecute(c) && |message| <= MAX_SINGLE_LINE_RESPONSE
    requires c0.out == c.out && c0.crashed == c.crashed && reply == ""
    ensures WriteIfFits(c0, message) == c0.(out := c.out + message) == Write(c0, message)
    ensures FreeSpace(c0.(out := c.out + message)) >= 0
    ensures (c.out + message)[|c.out|..] == message && reply + message == message
  {
  }

  lemma Suspends(before: Sess, c: Conn, job: Job, env: Env, reply: string, c1: Conn, added: string)
    requires c1.out == c.out + added && OnlyAdds(c, c1) && SessOf(c1) == before && InProgress(c1, job, reply + added)
    requires c1.cache.Some? && CacheOk(c1.cache.value)
    ensures Handles(before, c, job, env, reply, Handled(NOT_FINISHED, c1, env.users))
  {
    hide InProgress, CacheOk, Serves;
    assert c1.out[|c.out|..] == added;
  }

  lemma Completes(before: Sess, c: Conn, job: Job, env: Env, reply: string, c1: Conn, added: string,
                  status: ExecutionStatus)
    requires c1.out == c.out + added && OnlyAdds(c, c1) && status != NOT_FINISHED
    requires Serves(before, job, env, reply + added, SessOf(c1), RoomAtEnd(c, job))
    requires c1.cache.Some? && CacheOk(c1.cache.value)
    ensures Handles(before, c, job, env, reply, Handled(status, c1, env.users))
  {
    hide InProgress, CacheOk, Serves;
    assert c1.out[|c.out|..] == added;
  }

  /** Only LIST and RETR are ever suspended. */
  lemma StartsAfresh(before: Sess, c: Conn, job: Job, env: Env, reply: string)
    requires Callable(before, c, job, env, reply) && job.callback.value.verb != LIST && job.callback.value.verb != RETR
    ensures reply == "" && !c.processing
  {
  }

  lemma UserHandled(before: Sess, c: Conn, job: Job, env: Env, reply: string)
    requires Callable(before, c, job, env, reply) && job.callback.value.verb == USER
    ensures Handles(before, c, job, env, reply, CheckValidUsername(c, job.arg1, env))
  {
    hide CountMarked, TotalSize, InProgress, RoomAtEnd;
    StartsAfresh(before, c, job, env, reply);
    TableNeeds(job.callback.value);
    WholeLine(c, c, USER_RECEIVED, reply);
  }

  lemma PassHandled(before: Sess, c: Conn, job: Job, env: Env, reply: string)
    requires Callable(before, c, job, env, reply) && job.callback.value.verb == PASS
    ensures Handles(before, c, job, env, reply, CheckValidPassword(c, job.arg1, env))
  {
    hide CountMarked, TotalSize, ValidPassword, IsConnected, ToggleConnected, InProgress, RoomAtEnd;
    StartsAfresh(before, c, job, env, reply);
    TableNeeds(job.callback.value);
    InitCacheOk(env);
    WholeLine(c, c, ALREADY_CONNECTED, reply);
    WholeLine(c, c, AUTHENTICATION_FAILED, reply);
    WholeLine(c, c.(cache := Some(InitCache(env.mailbox)), sessionState := TRANSACTION), WELCOME, reply);
  }

  lemma NoopHandled(before: Sess, c: Conn, job: Job, env: Env, reply: string)
    requires Callable(before, c, job, env, reply) && job.callback.value.verb == NOOP
    ensures Handles(before, c, job, env, reply, Noop(c, env))
  {
    hide CountMarked, TotalSize, InProgress, RoomAtEnd;
    StartsAfresh(before, c, job, env, reply);
    TableNeeds(job.callback.value);
    WholeLine(c, c, OK_LINE, reply);
  }

  lemma CapaHandled(before: Sess, c: Conn, job: Job, env: Env, reply: string)
    requires Callable(before, c, job, env, reply) && job.callback.value.verb == CAPA
    ensures Handles(before, c, job, env, reply, Capa(c, env))
  {
    hide CountMarked, TotalSize, InProgress, RoomAtEnd;
    StartsAfresh(before, c, job, env, reply);
    TableNeeds(job.callback.value);
    WholeLine(c, c, CAPABILITIES, reply);
  }

  lemma QuitHandled(before: Sess, c: Conn, job: Job, env: Env, reply: string)
    requires Callable(before, c, job, env, reply) && job.callback.value.verb == QUIT
    ensures Handles(before, c, job, env, reply, Quit(c, env))
  {
    hide CountMarked, TotalSize, MarkedNumbers, InProgress, RoomAtEnd;
    StartsAfresh(before, c, job, env, reply);
    TableNeeds(job.callback.value);
    var c' := if c.sessionState == TRANSACTION then c.(cache := Some(DeleteMarkedMails(c.cache.value))) else c;
    WholeLine(c, c', EXITING, reply);
  }

  lemma DeleHandled(before: Sess, c: Conn, job: Job, env: Env, reply: string)
    requires Callable(before, c, job, env, reply) && job.callback.value.verb == DELE
    ensures c.cache.Some? && Handles(before, c, job, env, reply, Dele(c, job.arg1, env))
  {
    hide CountMarked, TotalSize, Atoi, InProgress, RoomAtEnd;
    StartsAfresh(before, c, job, env, reply);
    TableNeeds(job.callback.value);
    var cache, n := c.cache.value, Atoi(job.arg1);
    WholeLine(c, c, NO_SUCH_EMAIL, reply);
    if ValidMailNo(cache.mails, n) {
      MarkMailOk(cache, n);
      WholeLine(c, c.(cache := Some(MarkMail(cache, n))), MARKED, reply);
    }
  }

  lemma RsetHandled(before: Sess, c: Conn, job: Job, env: Env, reply: string)
    requires Callable(before, c, job, env, reply) && job.callback.value.verb == RSET
    ensures c.cache.Some? && Handles(before, c, job, env, reply, Rset(c, env))
  {
    hide CountMarked, TotalSize, Unmarked, InProgress, RoomAtEnd;
    StartsAfresh(before, c, job, env, reply);
    TableNeeds(job.callback.value);
    ResetToDeleteOk(c.cache.value);
    WholeLine(c, c.(cache := Some(ResetToDelete(c.cache.value))), UNMARKED, reply);
  }

  lemma StatHandled(before: Sess, c: Conn, job: Job, env: Env, reply: string)
    requires Callable(before, c, job, env, reply) && job.callback.value.verb == STAT
    ensures c.cache.Some? && Handles(before, c, job, env, reply, Stat(c, env))
  {
    hide StatLine, CountMarked, TotalSize, SizeOfUnmarked, InProgress, RoomAtEnd;
    StartsAfresh(before, c, job, env, reply);
    TableNeeds(job.callback.value);
    var cache := c.cache.value;
    StatLineFits(cache);
    WholeLine(c, c, StatLine(AmountOfMails(cache), SizeOfUnmarked(cache.mails)), reply);
  }

  lemma ListOneHandled(before: Sess, c: Conn, job: Job, env: Env, reply: string)
    requires Callable(before, c, job, env, reply) && job.callback.value.verb == LIST && job.arg1 != ""
    ensures c.cache.Some? && Handles(before, c, job, env, reply, ListWithArgument(c, job.arg1, env))
  {
    hide InTable, ListLine, Atoi, Handles, SizeOfUnmarked, CountMarked;
    TableNeeds(job.callback.value);
    var mails, n := c.cache.value.mails, Atoi(job.arg1);
    if ValidMailNo(mails, n) {
      var info := MailInfo(n, mails[n - 1].sizeInBytes);
      SizeWithinTotal(mails, n - 1);
      ListLineFits(info);
      WholeLine(c, c, "+OK " + ListLine(info), reply);
      Completes(before, c, job, env, reply, c.(out := c.out + ("+OK " + ListLine(info))), "+OK " + ListLine(info),
        FINISHED);
    } else {
      WholeLine(c, c, NO_SUCH_MESSAGE, reply);
      Completes(before, c, job, env, reply, c.(out := c.out + NO_SUCH_MESSAGE), NO_SUCH_MESSAGE, FAILED);
    }
  }

  /** A list that was begun, now or earlier: what was replied is the header and the lines up to the current position. */
  ghost predicate Listing(c: Conn, reply: string) {
    && c.cache.Some? && CacheOk(c.cache.value) && |c.out| <= BUFFERSIZE && FreeSpace(c) >= |LIST_END|
    && var mails := c.cache.value.mails;
       reply + ListLines(mails, c.cache.value.position) ==
       ListHeader(|mails| - CountMarked(mails)) + ListLines(mails, 0)
  }

  lemma ListBegins(c: Conn)
    requires ConnOk(c) && CanExecute(c) && c.cache.Some?
    ensures var header, c' := ListHeader(AmountOfMails(c.cache.value)), ListBegin(c);
            && c' == c.(out := c.out + header, cache := Some(c.cache.value.(position := 0)))
            && c'.out[|c.out|..] == header && Listing(c', header)
  {
    hide ListLines, CountMarked, TotalSize, ListHeader;
    StatLineFits(c.cache.value);
  }

  /** What `added` makes of the reply when the call stops early, and when it reaches the end. */
  lemma ListEnds(mails: seq<Mail>, i: nat, j: nat, reply: string, added: string)
    requires i <= j <= |mails| && ListAdded(mails, i, j, added) && (i < |mails| || i == j == 0)
    requires reply + ListLines(mails, i) == ListHeader(|mails| - CountMarked(mails)) + ListLines(mails, 0)
    ensures j < |mails| ==>
              reply + added + ListLines(mails, j) == ListHeader(|mails| - CountMarked(mails)) + ListLines(mails, 0)
    ensures j == |mails| ==> ListReply(mails, reply + added + LIST_END)
  {
    hide ListHeader, CountMarked, ListLine;
    var whole := ListHeader(|mails| - CountMarked(mails)) + ListLines(mails, 0);
    if j < |mails| || i == j || !LastMarked(mails) {
      assert reply + added + ListLines(mails, j) == reply + (added + ListLines(mails, j));
      if j == |mails| {
        assert reply + added == whole && whole + "" == whole;
      }
    } else {
      var last :| added == ListLines(mails, i) + ListLine(last);
      assert reply + added == whole + ListLine(last);
      assert ListReplyWith(mails, reply + added + LIST_END, ListLine(last));
    }
  }

  /** A LIST call that has written `written` by the time it gets to the loop. */
  ghost predicate ListReady(before: Sess, c: Conn, c0: Conn, written: string, job: Job, env: Env, reply: string) {
    && Callable(before, c, job, env, reply) && job.callback.value.verb == LIST && job.arg1 == "" && InfoOk(env.stale)
    && c.cache.Some? && c0.cache.Some? && c0 == (if c.processing then c else ListBegin(c))
    && c0 == c.(out := c.out + written, cache := c0.cache)
    && c0.cache.value == c.cache.value.(position := c0.cache.value.position)
    && Listing(c0, reply + written)
    && (HasNext(c0.cache.value) || c0.cache.value.position == 0)
  }

  lemma ListWritten(before: Sess, c: Conn, c0: Conn, written: string, job: Job, env: Env,
                    reply: string)
    returns (added: string)
    requires ListReady(before, c, c0, written, job, env, reply)
    ensures var c1 := ContinueList(c0, env.stale);
            && c1.cache.Some? && c1 == c.(out := c.out + (written + added), cache := c1.cache)
            && FreeSpace(c1) >= |LIST_END|
            && c1.cache.value == c.cache.value.(position := c1.cache.value.position) && CacheOk(c1.cache.value)
            && var mails, reply1 := c.cache.value.mails, reply + (written + added);
               if HasNext(c1.cache.value)
               then reply1 + ListLines(mails, c1.cache.value.position)
                    == ListHeader(|mails| - CountMarked(mails)) + ListLines(mails, 0)
               else ListReply(mails, reply1 + LIST_END)
  {
    hide ListLines, ListHeader, CountMarked, TotalSize, ListLine, ListAdded, ContinueList, ListReply, ListBegin,
      Callable, LastMarked;
    var cache := c0.cache.value;
    ContinueListLines(c0, env.stale);
    var c1 := ContinueList(c0, env.stale);
    added := c1.out[|c0.out|..];
    ListEnds(cache.mails, cache.position, c1.cache.value.position, reply + written, added);
    assert c1.out == c.out + (written + added) && reply + (written + added) == reply + written + added;
    ListCacheOk(cache, c1.cache.value);
  }

  lemma ListContinues(before: Sess, c: Conn, c0: Conn, written: string, job: Job, env: Env, reply: string)
    requires ListReady(before, c, c0, written, job, env, reply)
    ensures c.cache.Some? && Handles(before, c, job, env, reply, ListWithNoArguments(c, env))
  {
    hide ListLines, ListHeader, CountMarked, ListLine, ContinueList, ListReply, CacheOk, ListBegin, Handles, Serves,
      Listing, RoomAtEnd;
    var added := ListWritten(before, c, c0, written, job, env, reply);
    var c1 := ContinueList(c0, env.stale);
    var all := written + added;
    if HasNext(c1.cache.value) {
      Suspends(before, c, job, env, reply, c1, all);
    } else {
      var end := all + LIST_END;
      assert reply + end == reply + all + LIST_END && c1.out + LIST_END == c.out + end;
      ListServed(before, c1, job, env, reply + end, RoomAtEnd(c, job));
      Completes(before, c, job, env, reply, c1.(out := c.out + end), end, FINISHED);
    }
  }

  lemma ListServed(before: Sess, c: Conn, job: Job, env: Env, reply: string, room: int)
    requires job.callback.Some? && job.callback.value.verb == LIST && job.arg1 == "" && c.cache.Some?
    requires Allowed(c, job.callback.value) && SessOf(c) == before && ListReply(c.cache.value.mails, reply)
    ensures Serves(before, job, env, reply, before, room)
  {
    hide ListReply;
  }

  lemma ListCacheOk(cache: Cache, cache': Cache)
    requires CacheOk(cache) && cache' == cache.(position := cache'.position) && cache'.position <= |cache.mails|
    ensures CacheOk(cache')
  {
  }

  lemma ListAllHandled(before: Sess, c: Conn, job: Job, env: Env, reply: string)
    requires Callable(before, c, job, env, reply) && job.callback.value.verb == LIST && job.arg1 == ""
    ensures c.cache.Some? && Handles(before, c, job, env, reply, ListWithNoArguments(c, env))
  {
    hide ListLines, ListHeader, CountMarked, TotalSize, ListLine, Handles;
    TableNeeds(job.callback.value);
    if c.processing {
      assert c.out == c.out + "" && reply + "" == reply;
      ListContinues(before, c, c, "", job, env, reply);
    } else {
      ListBegins(c);
      var header := ListHeader(AmountOfMails(c.cache.value));
      assert reply + header == header;
      ListContinues(before, c, ListBegin(c), header, job, env, reply);
    }
  }

  // ---------- RETR ----------

  /** A mail being retrieved: what was replied and what is left make the whole mail. */
  ghost predicate Retrieving(c: Conn, body: string, reply: string) {
    && c.cache.Some? && c.cache.value.currentMail.Some? && CacheOk(c.cache.value) && |c.out| <= BUFFERSIZE
    && c.cache.value.currentMail.value.body == body
    && (Intact(body) ==> reply + Left(c.cache.value) == MESSAGE_FOLLOWS + Stuff(body))
  }

  lemma RetrBegins(c: Conn, mailNo: int)
    requires ConnOk(c) && CanExecute(c) && c.cache.Some? && ValidMailNo(c.cache.value.mails, mailNo)
    ensures var c' := RetrBegin(c, mailNo);
            && c' == c.(out := c.out + MESSAGE_FOLLOWS, cache := Some(OpenMail(c.cache.value, mailNo)))
            && c'.out[|c.out|..] == MESSAGE_FOLLOWS
            && Retrieving(c', c.cache.value.mails[mailNo - 1].body, MESSAGE_FOLLOWS)
  {
    OpenMailReading(c.cache.value, mailNo);
  }

  /** One call of `continueRetr` with room for more than a line. */
  lemma RetrContinues(c: Conn, body: string, reply: string)
    requires Retrieving(c, body, reply) && CanExecute(c)
    ensures var g, r := GetN(c.cache.value, FreeSpace(c)), ContinueRetr(c);
            && r == (g.status, c.(out := c.out + g.out, cache := Some(g.cache)))
            && r.1.out[|c.out|..] == g.out && g.status != FAILED
            && Retrieving(r.1, body, reply + g.out)
            && g.cache == c.cache.value.(currentMail := g.cache.currentMail, processor := g.cache.processor)
            && FreeSpace(r.1) == FreeSpace(c) - |g.out| >= 0
            && (g.status == FINISHED && Intact(body) ==>
                  || reply + g.out == MESSAGE_FOLLOWS + Stuff(body)
                  || (FreeSpace(r.1) == 0 && reply + g.out + "." == MESSAGE_FOLLOWS + Stuff(body)))
  {
    hide Stuff, CountMarked, TotalSize, Intact, Take, AddChunk, Fread;
    var n, cache := FreeSpace(c), c.cache.value;
    var g := GetN(cache, n);
    GetNFinishes(cache, n);
    if Intact(body) {
      GetNConserves(cache, n);
      assert reply + g.out + Left(g.cache) == reply + (g.out + Left(g.cache));
      if g.status == FINISHED && Left(g.cache) == "" {
        assert reply + g.out + "" == reply + g.out;
      }
    }
    GetNFile(cache, n);
  }

  lemma GetNFile(cache: Cache, n: nat)
    requires cache.currentMail.Some? && Reading(cache) && n <= BUFFERSIZE
    ensures var g := GetN(cache, n);
            && g.cache == cache.(currentMail := g.cache.currentMail, processor := g.cache.processor)
            && g.cache.currentMail.Some? && g.cache.currentMail.value.body == cache.currentMail.value.body
  {
  }

  lemma RetrHandled(before: Sess, c: Conn, job: Job, env: Env, reply: string)
    requires Callable(before, c, job, env, reply) && job.callback.value.verb == RETR
    ensures c.cache.Some? && Handles(before, c, job, env, reply, Retr(c, job.arg1, env))
  {
    hide InTable, Stuff, CountMarked, TotalSize, Intact, GetN, Left, Atoi, ContinueRetr, RetrBegin, Handles;
    TableNeeds(job.callback.value);
    var n := Atoi(job.arg1);
    if !c.processing && !ValidMailNo(c.cache.value.mails, n) {
      WholeLine(c, c, NO_SUCH_EMAIL, reply);
      RetrRefused(before, c, job, env, reply);
    } else {
      var body := c.cache.value.mails[n - 1].body;
      if c.processing {
        assert c.out == c.out + "" && reply + "" == reply;
        RetrGoesOn(before, c, c, "", job, env, reply, body);
      } else {
        RetrBegins(c, n);
        assert reply + MESSAGE_FOLLOWS == MESSAGE_FOLLOWS;
        RetrGoesOn(before, c, RetrBegin(c, n), MESSAGE_FOLLOWS, job, env, reply, body);
      }
    }
  }

  lemma RetrRefused(before: Sess, c: Conn, job: Job, env: Env, reply: string)
    requires Callable(before, c, job, env, reply) && job.callback.value.verb == RETR && c.cache.Some?
    requires !c.processing && !ValidMailNo(c.cache.value.mails, Atoi(job.arg1))
    ensures c.cache.Some? && Handles(before, c, job, env, reply, Retr(c, job.arg1, env))
  {
    hide InTable, CountMarked, TotalSize, Atoi, GetN;
    TableNeeds(job.callback.value);
    WholeLine(c, c, NO_SUCH_EMAIL, reply);
  }

  /** A RETR call that has written `written` by the time it asks for the next piece of the mail. */
  ghost predicate RetrReady(before: Sess, c: Conn, c0: Conn, written: string, job: Job, env: Env, reply: string,
                            body: string) {
    && Callable(before, c, job, env, reply) && job.callback.value.verb == RETR && c.cache.Some?
    && ValidMailNo(c.cache.value.mails, Atoi(job.arg1)) && body == c.cache.value.mails[Atoi(job.arg1) - 1].body
    && c0 == (if c.processing then c else RetrBegin(c, Atoi(job.arg1)))
    && c0 == c.(out := c.out + written, cache := c0.cache) && c0.cache.Some?
    && c0.cache.value == c.cache.value.(currentMail := c0.cache.value.currentMail,
      processor := c0.cache.value.processor)
    && Retrieving(c0, body, reply + written)
  }

  lemma RetrRoom(before: Sess, c: Conn, c0: Conn, written: string, job: Job, env: Env, reply: string, body: string)
    requires RetrReady(before, c, c0, written, job, env, reply, body) && FreeSpace(c0) >= 0
    ensures RoomAtEnd(c, job) == FreeSpace(c0) - |GetN(c0.cache.value, FreeSpace(c0)).out|
  {
    hide InTable, Stuff, Intact, GetN, Left, Atoi, RetrBegin, CacheOk, Callable;
  }

  /** The last piece, and the terminator if it fits. */
  lemma RetrLastPiece(before: Sess, c: Conn, c0: Conn, written: string, job: Job, env: Env, reply: string, body: string)
    returns (added: string, c2: Conn)
    requires RetrReady(before, c, c0, written, job, env, reply, body) && CanExecute(c0)
    requires GetN(c0.cache.value, FreeSpace(c0)).status == FINISHED
    ensures Retr(c, job.arg1, env) == Handled(FINISHED, c2, env.users)
    ensures c2 == c.(out := c.out + added, cache := c2.cache) && |c2.out| <= BUFFERSIZE
    ensures c2.cache.Some? && CacheOk(c2.cache.value) && SessOf(c2) == SessOf(c)
    ensures RetrReply(body, reply + added, RoomAtEnd(c, job))
  {
    hide Callable, InTable, Stuff, Intact, GetN, Left, Atoi, RetrBegin, ContinueRetr, RetrReply, CacheOk, InProgress,
      RoomAtEnd, Retr;
    RetrContinues(c0, body, reply + written);
    var g := GetN(c0.cache.value, FreeSpace(c0));
    var c1 := ContinueRetr(c0).1;
    RetrRoom(before, c, c0, written, job, env, reply, body);
    var end := if FreeSpace(c1) >= |MAIL_END| then MAIL_END else "";
    RetrEnds(body, reply + written + g.out, FreeSpace(c1));
    RetrExecutes(c, c0, c1, job, env, g.status, end);
    RetrCloses(c1.cache.value);
    added := written + g.out + end;
    c2 := c1.(out := c1.out + end, cache := Some(c1.cache.value.(currentMail := None)));
    Regroup(reply, written, g.out, end);
    Regroup(c.out, written, g.out, end);
  }

  lemma Regroup(s: string, a: string, b: string, t: string)
    ensures s + (a + b + t) == s + a + b + t
  {
  }

  lemma RetrFinishes(before: Sess, c: Conn, c0: Conn, written: string, job: Job, env: Env, reply: string, body: string)
    requires RetrReady(before, c, c0, written, job, env, reply, body) && CanExecute(c0)
    requires GetN(c0.cache.value, FreeSpace(c0)).status == FINISHED
    ensures Handles(before, c, job, env, reply, Retr(c, job.arg1, env))
  {
    hide InTable, Intact, GetN, Left, Atoi, RetrBegin, RetrReply, CacheOk, Handles, Serves, InProgress, RoomAtEnd,
      Retrieving, Retr;
    var added, c2 := RetrLastPiece(before, c, c0, written, job, env, reply, body);
    RetrServed(before, c, job, env, body, reply + added, RoomAtEnd(c, job));
    Completes(before, c, job, env, reply, c2, added, FINISHED);
  }

  lemma Joins(s: string, a: string, b: string)
    ensures s + (a + b) == s + a + b
  {
  }

  lemma RetrStops(before: Sess, c: Conn, c0: Conn, written: string, job: Job, env: Env, reply: string, body: string)
    requires RetrReady(before, c, c0, written, job, env, reply, body) && CanExecute(c0)
    requires GetN(c0.cache.value, FreeSpace(c0)).status == NOT_FINISHED
    ensures Handles(before, c, job, env, reply, Retr(c, job.arg1, env))
  {
    hide InTable, Stuff, Intact, GetN, Left, Atoi, RetrBegin, ContinueRetr, RetrReply, Handles, Dispatchable;
    RetrContinues(c0, body, reply + written);
    var g := GetN(c0.cache.value, FreeSpace(c0));
    var c1, added := ContinueRetr(c0).1, written + g.out;
    Joins(c.out, written, g.out);
    Joins(reply, written, g.out);
    RetrExecutes(c, c0, c1, job, env, g.status, "");
    Suspends(before, c, job, env, reply, c1, added);
  }

  lemma RetrPostponed(before: Sess, c: Conn, c0: Conn, written: string, job: Job, env: Env, reply: string, body: string)
    requires RetrReady(before, c, c0, written, job, env, reply, body) && !CanExecute(c0)
    ensures Handles(before, c, job, env, reply, Retr(c, job.arg1, env))
  {
    hide InTable, Stuff, Intact, GetN, Left, Atoi, RetrBegin, ContinueRetr, RetrReply, Handles, Dispatchable;
    RetrWaits(c0);
    RetrExecutes(c, c0, c0, job, env, NOT_FINISHED, "");
    Suspends(before, c, job, env, reply, c0, written);
  }

  lemma RetrGoesOn(before: Sess, c: Conn, c0: Conn, written: string, job: Job, env: Env, reply: string, body: string)
    requires RetrReady(before, c, c0, written, job, env, reply, body)
    ensures c.cache.Some? && Handles(before, c, job, env, reply, Retr(c, job.arg1, env))
  {
    hide Callable, Handles, RetrBegin, Intact, Left, CacheOk;
    if !CanExecute(c0) {
      RetrPostponed(before, c, c0, written, job, env, reply, body);
    } else if GetN(c0.cache.value, FreeSpace(c0)).status == FINISHED {
      RetrFinishes(before, c, c0, written, job, env, reply, body);
    } else {
      RetrStops(before, c, c0, written, job, env, reply, body);
    }
  }

  lemma RetrExecutes(c: Conn, c0: Conn, c1: Conn, job: Job, env: Env, status: ExecutionStatus, end: string)
    requires c.cache.Some? && c0.cache.Some? && c1.cache.Some?
    requires c.processing || ValidMailNo(c.cache.value.mails, Atoi(job.arg1))
    requires c0 == if c.processing then c else RetrBegin(c, Atoi(job.arg1))
    requires ContinueRetr(c0) == (status, c1)
    requires end == if status == FINISHED && FreeSpace(c1) >= |MAIL_END| then MAIL_END else ""
    ensures Retr(c, job.arg1, env) ==
            if status == FINISHED
            then Handled(FINISHED, c1.(out := c1.out + end, cache := Some(c1.cache.value.(currentMail := None))),
              env.users)
            else Handled(status, c1, env.users)
  {
    hide InTable, Atoi, ContinueRetr, RetrBegin;
    assert c1.out + "" == c1.out;
  }

  lemma RetrServed(before: Sess, c: Conn, job: Job, env: Env, body: string, reply: string, room: int)
    requires job.callback.Some? && job.callback.value.verb == RETR && c.cache.Some?
    requires Allowed(c, job.callback.value) && SessOf(c) == before
    requires ValidMailNo(c.cache.value.mails, Atoi(job.arg1)) && body == c.cache.value.mails[Atoi(job.arg1) - 1].body
    requires RetrReply(body, reply, room)
    ensures Serves(before, job, env, reply, before, room)
  {
    hide InTable, RetrReply, Atoi;
  }

  lemma RetrCloses(cache: Cache)
    requires CacheOk(cache)
    ensures CacheOk(cache.(currentMail := None))
  {
  }

  lemma RetrWaits(c: Conn)
    requires c.cache.Some? && !CanExecute(c)
    ensures ContinueRetr(c) == (NOT_FINISHED, c)
  {
  }

  lemma RetrEnds(body: string, reply: string, room: int)
    requires Intact(body) ==>
               || reply == MESSAGE_FOLLOWS + Stuff(body)
               || (room == 0 && reply + "." == MESSAGE_FOLLOWS + Stuff(body))
    ensures RetrReply(body, reply + if room >= |MAIL_END| then MAIL_END else "", room)
  {
    hide Stuff, Intact;
    assert reply + "" == reply;
  }

  /** Every call of a handler does what its command asks for. */
  lemma EveryHandler(before: Sess, c: Conn, job: Job, env: Env, reply: string)
    requires Callable(before, c, job, env, reply)
    ensures Handles(before, c, job, env, reply, Execute(c, job, env))
  {
    hide Handles, InProgress, ConnOk, CheckValidUsername, CheckValidPassword, Noop, Capa, Dele, Rset, Quit, Stat,
      ListWithArgument, ListWithNoArguments, Retr;
    TableNeeds(job.callback.value);
    match job.callback.value.verb
    case USER => UserHandled(before, c, job, env, reply);
    case PASS => PassHandled(before, c, job, env, reply);
    case NOOP => NoopHandled(before, c, job, env, reply);
    case CAPA => CapaHandled(before, c, job, env, reply);
    case QUIT => QuitHandled(before, c, job, env, reply);
    case DELE => DeleHandled(before, c, job, env, reply);
    case RSET => RsetHandled(before, c, job, env, reply);
    case STAT => StatHandled(before, c, job, env, reply);
    case RETR => RetrHandled(before, c, job, env, reply);
    case LIST =>
      if job.arg1 == "" {
        ListAllHandled(before, c, job, env, reply);
      } else {
        ListOneHandled(before, c, job, env, reply);
      }
  }
}
