/** One connection on values: the handlers, the dispatcher and the two halves of a select round. */
module Session {
  import opened Text
  import opened Commands
  import opened Parsing
  import opened Streaming
  import opened Mailbox
  import opened Users

  const MAX_SINGLE_LINE_RESPONSE: nat := 128

  datatype ClientState = READING | WRITING

  /** A client slot. `crashed`: the server ended itself because the output buffer was full. */
  datatype Conn = Conn(
    open: bool,
    queue: seq<FullCommand>,
    out: string,
    sessionState: PopState,
    clientState: ClientState,
    username: string,
    current: Option<Job>,
    processing: bool,
    cache: Option<Cache>,
    crashed: bool)

  /** The slot after `memset`. */
  const VACANT: Conn := Conn(false, [], "", ANY, READING, "", None, false, None, false)

  /** What a step finds outside the connection: the registered users, the files of the directory named after the user,
      and what happens to be in a `mailInfo` that nothing has been written to. */
  datatype Env = Env(users: seq<User>, mailbox: seq<string>, stale: MailInfo)

  datatype Handled = Handled(status: ExecutionStatus, conn: Conn, users: seq<User>)

  // ---------- the output buffer ----------

  function FreeSpace(c: Conn): int {
    BUFFERSIZE - |c.out|
  }

  /** `writeDataToBuffer`, which expects the caller to have checked the space. */
  function Write(c: Conn, message: string): Conn {
    if |message| <= FreeSpace(c) then c.(out := c.out + message)
    else c.(out := c.out + message[..if FreeSpace(c) < 0 then 0 else FreeSpace(c)], crashed := true)
  }

  /** `writeToOutputBuffer`, which drops a message that does not fit. */
  function WriteIfFits(c: Conn, message: string): Conn {
    if |message| <= FreeSpace(c) then Write(c, message) else c
  }

  const GREETING: string := "+OK Pop3 Server Ready\r\n"
  const INVALID_COMMAND: string := "-ERR Invalid command\r\n"
  const INVALID_STATE: string := "-ERR Invalid state\r\n"
  const USER_RECEIVED: string := "+OK User received.\r\n"
  const ALREADY_CONNECTED: string := "-ERR This user is already connected\r\n"
  const WELCOME: string := "+OK Welcome\r\n"
  const AUTHENTICATION_FAILED: string := "-ERR Authentication failed\r\n"
  const OK_LINE: string := "+OK\r\n"
  const MARKED: string := "+OK message marked to delete\r\n"
  const NO_SUCH_EMAIL: string := "-ERR That email doesn't seem to exist\r\n"
  const NO_SUCH_MESSAGE: string := "-ERR That message doesn't seem to exist\r\n"
  const UNMARKED: string := "+OK messages no longer marked to delete\r\n"
  const EXITING: string := "+OK exiting\r\n"
  const MESSAGE_FOLLOWS: string := "+OK message follows\r\n"
  const MAIL_END: string := "\r\n.\r\n"
  const LIST_END: string := ".\r\n"
  const CAPABILITIES: string := "+OK Capability list follows\r\nUSER\r\nPIPELINING\r\n.\r\n"

  // ---------- handlers ----------

  function CheckValidUsername(c: Conn, username: string, env: Env): Handled {
    if FreeSpace(c) >= |USER_RECEIVED| then
      Handled(FINISHED, Write(c, USER_RECEIVED).(username := username), env.users)
    else Handled(NOT_FINISHED, c, env.users)
  }

  function CheckValidPassword(c: Conn, password: string, env: Env): Handled {
    var valid := ValidPassword(env.users, c.username, password);
    var connected := IsConnected(env.users, c.username);
    var message := if !valid then AUTHENTICATION_FAILED else if connected then ALREADY_CONNECTED else WELCOME;
    var c' := if valid && !connected then c.(cache := Some(InitCache(env.mailbox)), sessionState := TRANSACTION) else c;
    var users := if valid && !connected then ToggleConnected(env.users, c.username, true) else env.users;
    if FreeSpace(c) >= |message| then Handled(FINISHED, Write(c', message), users)
    else Handled(NOT_FINISHED, c', users)
  }

  function Noop(c: Conn, env: Env): Handled {
    Handled(if |OK_LINE| <= FreeSpace(c) then FINISHED else FAILED, WriteIfFits(c, OK_LINE), env.users)
  }

  function Dele(c: Conn, toDelete: string, env: Env): Handled
    requires c.cache.Some?
  {
    var mailNo := Atoi(toDelete);
    if ValidMailNo(c.cache.value.mails, mailNo) then
      Handled(FINISHED, WriteIfFits(c.(cache := Some(MarkMail(c.cache.value, mailNo))), MARKED), env.users)
    else Handled(FAILED, WriteIfFits(c, NO_SUCH_EMAIL), env.users)
  }

  function Rset(c: Conn, env: Env): Handled
    requires c.cache.Some?
  {
    Handled(FINISHED, WriteIfFits(c.(cache := Some(ResetToDelete(c.cache.value))), UNMARKED), env.users)
  }

  function Quit(c: Conn, env: Env): Handled
    requires c.sessionState == TRANSACTION ==> c.cache.Some?
  {
    var c' := if c.sessionState == TRANSACTION then c.(cache := Some(DeleteMarkedMails(c.cache.value))) else c;
    Handled(FINISHED, WriteIfFits(c', EXITING).(sessionState := UPDATE), env.users)
  }

  function StatLine(amount: int, size: int): string {
    "+OK " + Decimal(amount) + " " + Decimal(size) + "\r\n"
  }

  function Stat(c: Conn, env: Env): Handled
    requires c.cache.Some?
  {
    var cache := c.cache.value;
    Handled(FINISHED, WriteIfFits(c, StatLine(AmountOfMails(cache), SizeOfUnmarked(cache.mails))), env.users)
  }

  function ListLine(info: MailInfo): string {
    Decimal(info.mailNo) + " " + Decimal(info.sizeInBytes) + "\r\n"
  }

  function ListHeader(amount: int): string {
    "+OK There are " + Decimal(amount) + " messages available\r\n"
  }

  /** The loop goes on after a failed `next`, because the value of FAILED is not negative. */
  function ContinueList(c: Conn, info: MailInfo): Conn
    requires c.cache.Some?
    ensures ContinueList(c, info).cache.Some?
    decreases |c.cache.value.mails| - c.cache.value.position
  {
    if FreeSpace(c) > MAX_SINGLE_LINE_RESPONSE && HasNext(c.cache.value) then
      NextAdvances(c.cache.value, info);
      var next := NextListed(c.cache.value, info);
      var c' := c.(cache := Some(next.cache));
      ContinueList(if next.code >= 0 then WriteIfFits(c', ListLine(next.info)) else c', next.info)
    else c
  }

  lemma {:induction false} NextAdvances(c: Cache, info: MailInfo)
    requires HasNext(c)
    ensures var next := NextListed(c, info);
            && next.cache == c.(position := next.cache.position)
            && c.position < next.cache.position <= |c.mails|
    decreases |c.mails| - c.position
  {
    var c' := c.(position := c.position + 1);
    if c.mails[c.position].toDelete && HasNext(c') {
      NextAdvances(c', info);
    }
  }

  function ListBegin(c: Conn): Conn
    requires c.cache.Some?
  {
    WriteIfFits(c, ListHeader(AmountOfMails(c.cache.value))).(cache := Some(c.cache.value.(position := 0)))
  }

  function ListWithNoArguments(c: Conn, env: Env): Handled
    requires c.cache.Some?
  {
    var c1 := ContinueList(if c.processing then c else ListBegin(c), env.stale);
    if HasNext(c1.cache.value) then Handled(NOT_FINISHED, c1, env.users)
    else Handled(FINISHED, WriteIfFits(c1, LIST_END), env.users)
  }

  function ListWithArgument(c: Conn, argument: string, env: Env): Handled
    requires c.cache.Some?
  {
    var mailNo, mails := Atoi(argument), c.cache.value.mails;
    if ValidMailNo(mails, mailNo) then
      Handled(FINISHED, WriteIfFits(c, "+OK " + ListLine(MailInfo(mailNo, mails[mailNo - 1].sizeInBytes))), env.users)
    else Handled(FAILED, WriteIfFits(c, NO_SUCH_MESSAGE), env.users)
  }

  /** Asks for as many characters as fit, if more than a line fits. */
  function ContinueRetr(c: Conn): (r: (ExecutionStatus, Conn))
    requires c.cache.Some?
    ensures r.1.cache.Some?
  {
    if FreeSpace(c) > MAX_SINGLE_LINE_RESPONSE then
      if c.cache.value.currentMail == None then (FAILED, c)
      else
        var got := GetN(c.cache.value, FreeSpace(c));
        (got.status, WriteIfFits(c.(cache := Some(got.cache)), got.out))
    else (NOT_FINISHED, c)
  }

  function RetrBegin(c: Conn, mailNo: int): Conn
    requires c.cache.Some? && ValidMailNo(c.cache.value.mails, mailNo)
  {
    WriteIfFits(c.(cache := Some(OpenMail(c.cache.value, mailNo))), MESSAGE_FOLLOWS)
  }

  function Retr(c: Conn, argument: string, env: Env): Handled
    requires c.cache.Some?
  {
    var mailNo := Atoi(argument);
    if !c.processing && !ValidMailNo(c.cache.value.mails, mailNo) then
      Handled(FAILED, WriteIfFits(c, NO_SUCH_EMAIL), env.users)
    else
      var r := ContinueRetr(if c.processing then c else RetrBegin(c, mailNo));
      if r.0 == FINISHED then
        var c' := WriteIfFits(r.1, MAIL_END);
        Handled(FINISHED, c'.(cache := Some(c'.cache.value.(currentMail := None))), env.users)
      else Handled(r.0, r.1, env.users)
  }

  function Capa(c: Conn, env: Env): Handled {
    Handled(if |CAPABILITIES| <= FreeSpace(c) then FINISHED else NOT_FINISHED, WriteIfFits(c, CAPABILITIES), env.users)
  }

  /** The states in which the server calls handlers: in TRANSACTION there is a cache. */
  predicate CacheReady(c: Conn) {
    c.sessionState == TRANSACTION ==> c.cache.Some?
  }

  predicate Allowed(c: Conn, entry: CommandWithState) {
    entry.stateNeeded == ANY || c.sessionState == entry.stateNeeded
  }

  /** The handlers that only run with a cache. */
  function OnMails(c: Conn, job: Job, env: Env): Handled
    requires job.callback.Some? && job.callback.value.verb in {STAT, LIST, RETR, DELE, RSET} && c.cache.Some?
  {
    match job.callback.value.verb
    case STAT => Stat(c, env)
    case LIST => if job.arg1 != "" then ListWithArgument(c, job.arg1, env) else ListWithNoArguments(c, env)
    case RETR => Retr(c, job.arg1, env)
    case DELE => Dele(c, job.arg1, env)
    case RSET => Rset(c, env)
  }

  /** The handlers that do without one, except PASS. */
  function WithoutMails(c: Conn, job: Job, env: Env): Handled
    requires job.callback.Some? && job.callback.value.verb in {USER, NOOP, QUIT, CAPA} && CacheReady(c)
  {
    match job.callback.value.verb
    case USER => CheckValidUsername(c, job.arg1, env)
    case NOOP => Noop(c, env)
    case QUIT => Quit(c, env)
    case CAPA => Capa(c, env)
  }

  /** `callback.execute_command(arg1, arg2, user_data)` */
  function Execute(c: Conn, job: Job, env: Env): Handled
    requires job.callback.Some? && InTable(job.callback.value)
    requires CacheReady(c) && Allowed(c, job.callback.value)
  {
    match job.callback.value.verb
    case PASS => CheckValidPassword(c, job.arg1, env)
    case USER | NOOP | QUIT | CAPA => WithoutMails(c, job, env)
    case _ => OnMails(c, job, env)
  }

  // ---------- the dispatcher ----------

  datatype Turn = Turn(conn: Conn, users: seq<User>)

  /** The commands the dispatcher meets come from the table, and a suspended one may go on. */
  ghost predicate Dispatchable(c: Conn) {
    && CacheReady(c)
    && FromTable(c.queue)
    && (c.processing ==> c.current.Some? && c.current.value.callback.Some?
                         && InTable(c.current.value.callback.value)
                         && Allowed(c, c.current.value.callback.value))
  }

  /** Runs the current command, and notes whether it has to go on later. */
  function RunCurrent(c: Conn, env: Env): Turn
    requires c.current.Some? && c.current.value.callback.Some? && InTable(c.current.value.callback.value)
    requires CacheReady(c) && Allowed(c, c.current.value.callback.value)
  {
    var h := Execute(c, c.current.value, env);
    Turn(h.conn.(processing := h.status == NOT_FINISHED), h.users)
  }

  function ExecuteFirstCommand(c: Conn, env: Env): Turn
    requires Dispatchable(c)
  {
    if c.processing then RunCurrent(c, env)
    else if Available(c.queue) then
      var job := JobOf(c.queue[0]);
      var c1 := c.(queue := c.queue[1..]);
      if job.callback == None then Turn(Write(c1, INVALID_COMMAND), env.users)
      else if !Allowed(c1, job.callback.value) then Turn(Write(c1, INVALID_STATE), env.users)
      else RunCurrent(c1.(current := Some(job)), env)
    else Turn(c, env.users)
  }

  // ---------- reading and writing ----------

  function CloseClient(c: Conn, users: seq<User>): Turn {
    if !c.open then Turn(c, users) else Turn(VACANT.(crashed := c.crashed), ToggleConnected(users, c.username, false))
  }

  /** What send does: it takes some of the bytes offered, or fails. */
  datatype Send = Sent(n: nat) | SendFailed

  /** The whole buffer is taken out, and what was not sent is put back. */
  function WriteToClient(c: Conn, users: seq<User>, send: Send): Turn
    requires send.Sent? ==> send.n <= |c.out|
  {
    if c.out != "" && send.SendFailed? then CloseClient(c.(out := ""), users)
    else
      var c' := if c.out == "" then c else Write(c.(out := ""), c.out[send.n..]);
      Turn(if c'.out == "" && !Available(c'.queue) && !c'.processing then c'.(clientState := READING) else c', users)
  }

  datatype Recv = Data(piece: string) | ReceiveError | EndOfStream

  function ReadFromClient(c: Conn, users: seq<User>, recv: Recv): Turn {
    match recv
    case ReceiveError => Turn(c, users)
    case EndOfStream => CloseClient(c, users)
    case Data(piece) => Turn(c.(queue := Receive(c.queue, piece), clientState := WRITING), users)
  }

  /** initClient and the greeting, in a vacant slot. */
  function Accept(c: Conn): Conn {
    Write(c.(open := true, sessionState := AUTHENTICATION, clientState := WRITING, queue := []), GREETING)
  }

  predicate CanExecute(c: Conn) {
    FreeSpace(c) > MAX_SINGLE_LINE_RESPONSE
  }

  function Respond(c: Conn, env: Env): Turn
    requires Dispatchable(c)
  {
    if CanExecute(c) then ExecuteFirstCommand(c, env) else Turn(c, env.users)
  }

  /** The branch of `handleClients` for a socket that can be written. */
  function HandleWritable(c: Conn, env: Env, send: Send): Turn
    requires Dispatchable(c)
    requires send.Sent? ==> send.n <= |Respond(c, env).conn.out|
  {
    var t1 := Respond(c, env);
    var t2 := WriteToClient(t1.conn, t1.users, send);
    if t2.conn.clientState == READING && t2.conn.sessionState == UPDATE then CloseClient(t2.conn, t2.users) else t2
  }
}
