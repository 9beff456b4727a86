/** A client slot of the server: the structure whose fields every handler changes in place. */
module Client {
  import opened Text
  import opened Commands
  import opened Parsing
  import opened Streaming
  import opened Mailbox
  import opened Users
  import opened Session
  import opened CircularBuffer
  import CommandList
  import MailCache
  import UserList

  datatype CommandExecuteState = AVAILABLE | PROCESSING

  const NOT_ALLOCATED: int := -1

  /** A command taken from the queue, allocated when it is taken and freed when it has been executed. */
  class CommandToExecute {
    const job: Job
    ghost var live: bool

    constructor (job: Job)
      ensures this.job == job && live
    {
      this.job := job;
      live := true;
    }

    method Free()
      requires live
      modifies this
      ensures !live
    {
      live := false;
    }
  }

  class Client {
    var commandList: CommandList.CommandList?
    const outputBuff: Buffer
    var sessionState: PopState
    var clientState: ClientState
    var socket: int
    var username: string
    var currentCommand: CommandToExecute?
    var commandState: CommandExecuteState
    var mailCache: MailCache.MailCache?
    /** The server has ended itself. */
    var crashed: bool
    /** The commands taken from the queue and not freed yet. */
    ghost var outstanding: set<CommandToExecute>

    ghost function CacheRepr(): set<object>
      reads this
    {
      if mailCache == null then {} else mailCache.Repr()
    }

    ghost predicate Valid()
      reads this, outputBuff, outputBuff.buffer, CacheRepr(), currentCommand,
            commandList, if commandList == null then [] else commandList.nodes
      ensures Valid() ==>
                && outputBuff.Valid() && (mailCache != null ==> mailCache.Valid())
                && (commandList == null <==> socket == NOT_ALLOCATED) && (commandList != null ==> commandList.Valid())
    {
      && outputBuff.Valid()
      && (commandList == null <==> socket == NOT_ALLOCATED) && (commandList != null ==> commandList.Valid())
      && (mailCache != null ==> mailCache.Valid() && mailCache.charactersProcessor.buffer != outputBuff.buffer)
      && (commandState == PROCESSING ==> currentCommand != null && currentCommand.live)
    }

    /** The one allocation not freed yet is the command that was suspended. */
    ghost predicate Accounted()
      reads this
    {
      outstanding == if commandState == PROCESSING && currentCommand != null then {currentCommand} else {}
    }

    ghost function View(): (c: Conn)
      requires outputBuff.Valid()
      reads this, outputBuff, outputBuff.buffer, CacheRepr(), currentCommand,
            commandList, if commandList == null then [] else commandList.nodes
      ensures c.out == outputBuff.Contents() && c.crashed == crashed
      ensures c.sessionState == sessionState && c.clientState == clientState && c.username == username
      ensures c.cache == if mailCache == null then None else Some(mailCache.View())
      ensures c.processing <==> commandState == PROCESSING
      ensures c.current == if currentCommand == null then None else Some(currentCommand.job)
    {
      Conn(socket != NOT_ALLOCATED,
           if commandList == null then [] else commandList.Contents(),
           outputBuff.Contents(), sessionState, clientState, username,
           if currentCommand == null then None else Some(currentCommand.job),
           commandState == PROCESSING,
           if mailCache == null then None else Some(mailCache.View()),
           crashed)
    }

    /** A slot as `main` prepares it. */
    constructor ()
      ensures Valid() && Accounted() && View() == VACANT && fresh(outputBuff) && fresh(outputBuff.buffer)
    {
      outputBuff := new Buffer();
      commandList, currentCommand, mailCache := null, null, null;
      sessionState, clientState, socket, username := ANY, READING, NOT_ALLOCATED, "";
      commandState, crashed, outstanding := AVAILABLE, false, {};
    }

    // ---------- what a change of one part leaves ----------

    /** The queue and the current command are as they were, and so are the fields the parts hang on. */
    twostate predicate SameFrame()
      reads this, commandList, if commandList == null then [] else commandList.nodes, currentCommand
    {
      && unchanged(this`commandList, this`clientState, this`socket, this`currentCommand, this`commandState)
      && (commandList != null ==> unchanged(commandList) && unchanged(commandList.nodes))
      && (currentCommand != null ==> unchanged(currentCommand))
    }

    twostate lemma OutputChanged()
      requires old(Valid()) && outputBuff.Valid() && SameFrame()
      requires unchanged(this`sessionState, this`username, this`mailCache)
      requires mailCache != null ==> unchanged(mailCache.Repr())
      ensures Valid() && View() == old(View()).(out := outputBuff.Contents(), crashed := crashed)
    {
      hide Window, CommandList.Views, Reading;
    }

    twostate lemma CacheChanged()
      requires old(Valid()) && SameFrame() && unchanged(outputBuff) && unchanged(outputBuff.buffer)
      requires unchanged(this`sessionState, this`username, this`mailCache, this`crashed)
      requires mailCache != null && mailCache.Valid()
      ensures Valid() && View() == old(View()).(cache := Some(mailCache.View()))
    {
      hide Window, CommandList.Views, Reading;
    }

    twostate lemma LoggedIn()
      requires old(Valid()) && SameFrame() && unchanged(outputBuff) && unchanged(outputBuff.buffer)
      requires unchanged(this`username, this`crashed)
      requires mailCache != null && mailCache.Valid() && mailCache.charactersProcessor.buffer != outputBuff.buffer
      ensures Valid() && View() == old(View()).(cache := Some(mailCache.View()), sessionState := sessionState)
    {
      hide Window, CommandList.Views, Reading;
    }

    twostate lemma FieldsChanged()
      requires old(Valid()) && SameFrame() && unchanged(outputBuff) && unchanged(outputBuff.buffer)
      requires unchanged(this`crashed, this`mailCache) && (mailCache != null ==> unchanged(mailCache.Repr()))
      ensures Valid() && View() == old(View()).(sessionState := sessionState, username := username)
    {
      hide Window, CommandList.Views, Reading;
    }

    // ---------- output ----------

    /** `writeDataToBuffer` on the output buffer. */
    method PutInBuffer(message: string)
      requires Valid()
      modifies this`crashed, outputBuff, outputBuff.buffer
      ensures Valid() && View() == Write(old(View()), message)
    {
      hide Window, CommandList.Views, Reading;
      var fatal := outputBuff.WriteData(message);
      crashed := crashed || fatal;
      OutputChanged();
    }

    method WriteToOutputBuffer(message: string) returns (written: bool)
      requires Valid()
      modifies this`crashed, outputBuff, outputBuff.buffer
      ensures Valid() && View() == WriteIfFits(old(View()), message)
      ensures written <==> |message| <= FreeSpace(old(View()))
    {
      hide Window, CommandList.Views, Reading;
      var free := outputBuff.FreeSpace();
      written := free >= |message|;
      if written {
        PutInBuffer(message);
      }
    }

    // ---------- handlers ----------

    method CheckUsername(username: string, ghost env: Env) returns (status: ExecutionStatus)
      requires Valid()
      modifies this`crashed, this`username, outputBuff, outputBuff.buffer
      ensures Valid() && Handled(status, View(), env.users) == CheckValidUsername(old(View()), username, env)
    {
      hide Window, CommandList.Views, Reading;
      var free := outputBuff.FreeSpace();
      if free < |USER_RECEIVED| {
        return NOT_FINISHED;
      }
      PutInBuffer(USER_RECEIVED);
      label Written:
      this.username := username;
      FieldsChanged@Written();
      status := FINISHED;
    }

    method LogIn(mailbox: seq<string>)
      requires Valid()
      modifies this`mailCache, this`sessionState
      ensures Valid() && fresh(CacheRepr())
      ensures View() == old(View()).(cache := Some(InitCache(mailbox)), sessionState := TRANSACTION)
    {
      hide InitCache, Reading;
      mailCache := new MailCache.MailCache(mailbox);
      sessionState := TRANSACTION;
      LoggedIn();
    }

    twostate lemma Untouched()
      requires old(Valid()) && SameFrame() && unchanged(outputBuff) && unchanged(outputBuff.buffer)
      requires unchanged(this`sessionState, this`username, this`mailCache, this`crashed)
      requires mailCache != null ==> unchanged(mailCache.Repr())
      ensures Valid() && View() == old(View())
    {
      hide Window, CommandList.Views, Reading;
    }

    /** May this user log in with this password, and is nobody logged in as him? */
    method LoginMessage(password: string, users: UserList.UserList, ghost env: Env) returns (message: string)
      requires Valid() && users.Valid() && env.users == users.Contents()
      ensures message == if !ValidPassword(env.users, username, password) then AUTHENTICATION_FAILED
                         else if IsConnected(env.users, username) then ALREADY_CONNECTED else WELCOME
    {
      hide Valid, View, UserList.Views, UniqueNames, ValidPassword, IsConnected;
      var valid := users.IsValidPassword(username, password);
      if !valid {
        return AUTHENTICATION_FAILED;
      }
      users.Untouched();
      var connected := users.UserIsConnected(username);
      message := if connected then ALREADY_CONNECTED else WELCOME;
    }

    /** The user becomes connected and gets a cache. */
    method OpenSession(users: UserList.UserList, mailbox: seq<string>)
      requires Valid() && users.Valid()
      modifies this`mailCache, this`sessionState, users.nodes
      ensures Valid() && users.Valid() && fresh(CacheRepr())
      ensures View() == old(View()).(cache := Some(InitCache(mailbox)), sessionState := TRANSACTION)
      ensures users.Contents() == ToggleConnected(old(users.Contents()), username, true)
    {
      hide Valid, View, Window, Reading, ToggleConnected, InitCache, UniqueNames, UserList.Views;
      users.ToggleUserConnected(username, true);
      Untouched();
      label Toggled:
      LogIn(mailbox);
      users.Untouched@Toggled();
    }

    /** The user list is `users`; the files of the user's directory are `mailbox`. */
    method CheckPassword(password: string, users: UserList.UserList, mailbox: seq<string>, ghost env: Env)
      returns (status: ExecutionStatus)
      requires Valid() && users.Valid() && env.users == users.Contents() && env.mailbox == mailbox
      modifies this`crashed, this`mailCache, this`sessionState, outputBuff, outputBuff.buffer, users.nodes
      ensures Valid() && users.Valid() && (mailCache == old(mailCache) || fresh(CacheRepr()))
      ensures Handled(status, View(), users.Contents()) == CheckValidPassword(old(View()), password, env)
    {
      hide Valid, View, Window, Reading, ValidPassword, IsConnected, ToggleConnected, InitCache, UniqueNames,
        UserList.Views;
      var message := LoginMessage(password, users, env);
      Untouched();
      users.Untouched();
      WelcomeOnly(env, username, password, message);
      if message == WELCOME {
        OpenSession(users, mailbox);
      }
      label Decided:
      var written := WriteToOutputBuffer(message);
      users.Untouched@Decided();
      status := if written then FINISHED else NOT_FINISHED;
    }

    method NoopCommand(ghost env: Env) returns (status: ExecutionStatus)
      requires Valid()
      modifies this`crashed, outputBuff, outputBuff.buffer
      ensures Valid() && Handled(status, View(), env.users) == Noop(old(View()), env)
    {
      hide Window, CommandList.Views, Reading;
      var written := WriteToOutputBuffer(OK_LINE);
      status := if written then FINISHED else FAILED;
    }

    method CapaCommand(ghost env: Env) returns (status: ExecutionStatus)
      requires Valid()
      modifies this`crashed, outputBuff, outputBuff.buffer
      ensures Valid() && Handled(status, View(), env.users) == Capa(old(View()), env)
    {
      hide Window, CommandList.Views, Reading;
      var written := WriteToOutputBuffer(CAPABILITIES);
      status := if written then FINISHED else NOT_FINISHED;
    }

    method DeleCommand(toDelete: string, ghost env: Env) returns (status: ExecutionStatus)
      requires Valid() && mailCache != null
      modifies this`crashed, outputBuff, outputBuff.buffer, mailCache.Repr()
      ensures Valid() && Handled(status, View(), env.users) == Dele(old(View()), toDelete, env)
    {
      hide Window, CommandList.Views, Reading, Atoi, MarkMail;
      status := mailCache.MarkMailToDelete(Atoi(toDelete));
      CacheChanged();
      var written := WriteToOutputBuffer(if status == FINISHED then MARKED else NO_SUCH_EMAIL);
    }

    method RsetCommand(ghost env: Env) returns (status: ExecutionStatus)
      requires Valid() && mailCache != null
      modifies this`crashed, outputBuff, outputBuff.buffer, mailCache.Repr()
      ensures Valid() && Handled(status, View(), env.users) == Rset(old(View()), env)
    {
      hide Window, CommandList.Views, Reading, ResetToDelete;
      mailCache.ResetMarks();
      CacheChanged();
      var written := WriteToOutputBuffer(UNMARKED);
      status := FINISHED;
    }

    method QuitCommand(ghost env: Env) returns (status: ExecutionStatus)
      requires Valid() && CacheReady(View())
      modifies this`crashed, this`sessionState, outputBuff, outputBuff.buffer, CacheRepr()
      ensures Valid() && Handled(status, View(), env.users) == Quit(old(View()), env)
    {
      hide Valid, View, Window, CommandList.Views, Reading, DeleteMarkedMails;
      if sessionState == TRANSACTION {
        mailCache.UnlinkMarked();
        CacheChanged();
      }
      var written := WriteToOutputBuffer(EXITING);
      label Written:
      sessionState := UPDATE;
      FieldsChanged@Written();
      status := FINISHED;
    }

    method StatCommand(ghost env: Env) returns (status: ExecutionStatus)
      requires Valid() && mailCache != null
      modifies this`crashed, outputBuff, outputBuff.buffer
      ensures Valid() && Handled(status, View(), env.users) == Stat(old(View()), env)
    {
      hide Window, CommandList.Views, Reading, StatLine, SizeOfUnmarked;
      var amount := mailCache.Amount();
      var size := mailCache.Size();
      var written := WriteToOutputBuffer(StatLine(amount, size));
      status := FINISHED;
    }

    method ListOne(argument: string, ghost env: Env) returns (status: ExecutionStatus)
      requires Valid() && mailCache != null
      modifies this`crashed, outputBuff, outputBuff.buffer
      ensures Valid() && Handled(status, View(), env.users) == ListWithArgument(old(View()), argument, env)
    {
      hide Window, CommandList.Views, Reading, ListLine, Atoi;
      var info := mailCache.GetMailInfo(Atoi(argument));
      var message := if info.Some? then "+OK " + ListLine(info.value) else NO_SUCH_MESSAGE;
      var written := WriteToOutputBuffer(message);
      status := if info.Some? then FINISHED else FAILED;
    }

    /** The body of the loop of `continueList`. */
    method ListNext(info: MailInfo) returns (next: MailInfo)
      requires Valid() && mailCache != null
      requires FreeSpace(View()) > MAX_SINGLE_LINE_RESPONSE && HasNext(mailCache.View())
      modifies this`crashed, outputBuff, outputBuff.buffer, mailCache`position
      ensures Valid() && ContinueList(old(View()), info) == ContinueList(View(), next)
      ensures mailCache.mails.Length - mailCache.position < old(mailCache.mails.Length - mailCache.position)
      ensures mailCache.position <= mailCache.mails.Length
    {
      hide Window, CommandList.Views, Reading, ListLine, NextListed;
      NextAdvances(mailCache.View(), info);
      var code: int;
      code, next := mailCache.NextMail(info);
      CacheChanged();
      if code >= 0 {
        var written := WriteToOutputBuffer(ListLine(next));
      }
    }

    method ContinueListing(stale: MailInfo)
      requires Valid() && mailCache != null
      modifies this`crashed, outputBuff, outputBuff.buffer, mailCache`position
      ensures Valid() && View() == ContinueList(old(View()), stale)
    {
      hide Valid, View, Window, CommandList.Views, Reading, ContinueList;
      var info := stale;
      while outputBuff.FreeSpace() > MAX_SINGLE_LINE_RESPONSE && mailCache.HasMore()
        invariant Valid()
        invariant ContinueList(old(View()), stale) == ContinueList(View(), info)
        decreases mailCache.mails.Length - mailCache.position
      {
        info := ListNext(info);
      }
      ListStops(View(), info);
    }

    method BeginListing()
      requires Valid() && mailCache != null
      modifies this`crashed, outputBuff, outputBuff.buffer, mailCache`position
      ensures Valid() && View() == ListBegin(old(View()))
    {
      hide Window, CommandList.Views, Reading, ListHeader;
      var amount := mailCache.Amount();
      var written := WriteToOutputBuffer(ListHeader(amount));
      label Written:
      mailCache.ToBegin();
      CacheChanged@Written();
    }

    method ListAll(stale: MailInfo, ghost env: Env) returns (status: ExecutionStatus)
      requires Valid() && mailCache != null && env.stale == stale
      modifies this`crashed, outputBuff, outputBuff.buffer, mailCache`position
      ensures Valid() && Handled(status, View(), env.users) == ListWithNoArguments(old(View()), env)
    {
      hide Valid, View, Window, CommandList.Views, Reading, ListBegin, ContinueList;
      if commandState == AVAILABLE {
        BeginListing();
      }
      ContinueListing(stale);
      if mailCache.HasMore() {
        return NOT_FINISHED;
      }
      var ended := WriteToOutputBuffer(LIST_END);
      status := FINISHED;
    }

    method ContinueRetrieval() returns (status: ExecutionStatus)
      requires Valid() && mailCache != null
      modifies this`crashed, outputBuff, outputBuff.buffer, mailCache.Repr()
      ensures Valid() && (status, View()) == ContinueRetr(old(View()))
    {
      hide Window, CommandList.Views, Reading, GetN;
      var free := outputBuff.FreeSpace();
      if free <= MAX_SINGLE_LINE_RESPONSE {
        return NOT_FINISHED;
      }
      if mailCache.currentMail == None {
        return FAILED;
      }
      var buffer := new char[free + 1];
      var characters: nat;
      status, characters := mailCache.GetNCharsFromMail(buffer, free);
      CacheChanged();
      var written := WriteToOutputBuffer(buffer[..characters]);
    }

    /** Opens the mail and writes the status line, or refuses. */
    method BeginRetrieval(mailNo: int) returns (found: ExecutionStatus)
      requires Valid() && mailCache != null
      modifies this`crashed, outputBuff, outputBuff.buffer, mailCache.Repr()
      ensures Valid()
      ensures if ValidMailNo(old(View()).cache.value.mails, mailNo)
              then found == FINISHED && View() == RetrBegin(old(View()), mailNo)
              else found == FAILED && View() == WriteIfFits(old(View()), NO_SUCH_EMAIL)
    {
      hide Valid, Window, CommandList.Views, Reading, OpenMail;
      found := mailCache.OpenMail(mailNo);
      CacheChanged();
      var written := WriteToOutputBuffer(if found == FAILED then NO_SUCH_EMAIL else MESSAGE_FOLLOWS);
    }

    method EndRetrieval()
      requires Valid() && mailCache != null
      modifies this`crashed, outputBuff, outputBuff.buffer, mailCache`currentMail
      ensures Valid()
      ensures var c := WriteIfFits(old(View()), MAIL_END);
              View() == c.(cache := Some(c.cache.value.(currentMail := None)))
    {
      hide Valid, Window, CommandList.Views, Reading;
      var written := WriteToOutputBuffer(MAIL_END);
      label Ended:
      mailCache.CloseMail();
      CacheChanged@Ended();
    }

    method RetrCommand(argument: string, ghost env: Env) returns (status: ExecutionStatus)
      requires Valid() && mailCache != null
      modifies this`crashed, outputBuff, outputBuff.buffer, mailCache.Repr()
      ensures Valid() && Handled(status, View(), env.users) == Retr(old(View()), argument, env)
    {
      hide Valid, View, Window, CommandList.Views, Reading, GetN, ContinueRetr, Atoi, RetrBegin;
      if commandState == AVAILABLE {
        var found := BeginRetrieval(Atoi(argument));
        if found == FAILED {
          return FAILED;
        }
      }
      status := ContinueRetrieval();
      if status == FINISHED {
        EndRetrieval();
      }
    }

    // ---------- the dispatcher ----------

    twostate lemma CommandChanged()
      requires old(Valid()) && unchanged(outputBuff) && unchanged(outputBuff.buffer)
      requires unchanged(this`commandList, this`clientState, this`socket, this`sessionState, this`username,
               this`mailCache, this`crashed)
      requires commandList != null ==> unchanged(commandList) && unchanged(commandList.nodes)
      requires mailCache != null ==> unchanged(mailCache.Repr())
      requires commandState == PROCESSING ==> currentCommand != null && currentCommand.live
      ensures Valid()
      ensures View() == old(View()).(current := if currentCommand == null then None else Some(currentCommand.job),
                                     processing := commandState == PROCESSING)
    {
      hide Window, CommandList.Views, Reading;
    }

    twostate lemma QueueChanged()
      requires old(Valid()) && unchanged(outputBuff) && unchanged(outputBuff.buffer)
      requires unchanged(this`commandList, this`clientState, this`socket, this`sessionState, this`username,
               this`mailCache,
                         this`crashed, this`currentCommand, this`commandState)
      requires commandList != null && commandList.Valid() && (currentCommand != null ==> unchanged(currentCommand))
      requires mailCache != null ==> unchanged(mailCache.Repr())
      ensures Valid() && View() == old(View()).(queue := commandList.Contents())
    {
      hide Window, CommandList.Views, Reading;
    }

    method FreeCommand(command: CommandToExecute)
      requires command.live && command in outstanding
      modifies command, this`outstanding
      ensures outstanding == old(outstanding) - {command} && !command.live
    {
      command.Free();
      outstanding := outstanding - {command};
    }

    /** The handlers that only run with a cache. */
    method ExecuteOnMails(job: Job, stale: MailInfo, ghost users: UserList.UserList, ghost env: Env)
      returns (status: ExecutionStatus)
      requires Valid() && users.Valid() && mailCache != null && env.stale == stale
      requires job.callback.Some? && job.callback.value.verb in {STAT, LIST, RETR, DELE, RSET}
      modifies this`crashed, outputBuff, outputBuff.buffer, mailCache.Repr()
      ensures users.Valid() && users.Contents() == old(users.Contents())
      ensures Valid() && Handled(status, View(), env.users) == OnMails(old(View()), job, env)
    {
      hide Valid, View, UserList.Views, UniqueNames, Dele, Rset, Stat, ListWithArgument, ListWithNoArguments, Retr;
      match job.callback.value.verb {
        case STAT => status := StatCommand(env);
        case LIST =>
          if job.arg1 != "" {
            status := ListOne(job.arg1, env);
          } else {
            status := ListAll(stale, env);
          }
        case RETR => status := RetrCommand(job.arg1, env);
        case DELE => status := DeleCommand(job.arg1, env);
        case RSET => status := RsetCommand(env);
      }
      users.Untouched();
    }

    /** The handlers that do without one, except PASS. */
    method ExecuteWithoutMails(job: Job, ghost users: UserList.UserList, ghost env: Env)
      returns (status: ExecutionStatus)
      requires Valid() && users.Valid() && CacheReady(View())
      requires job.callback.Some? && job.callback.value.verb in {USER, NOOP, QUIT, CAPA}
      modifies this`crashed, this`sessionState, this`username, outputBuff, outputBuff.buffer, CacheRepr()
      ensures users.Valid() && users.Contents() == old(users.Contents()) && mailCache == old(mailCache)
      ensures Valid() && Handled(status, View(), env.users) == WithoutMails(old(View()), job, env)
    {
      hide Valid, View, UserList.Views, UniqueNames, CheckValidUsername, Noop, Capa, Quit;
      match job.callback.value.verb {
        case USER => status := CheckUsername(job.arg1, env);
        case NOOP => status := NoopCommand(env);
        case QUIT => status := QuitCommand(env);
        case CAPA => status := CapaCommand(env);
      }
      users.Untouched();
    }

    /** The indirect call of the handler. */
    method ExecuteCommand(job: Job, users: UserList.UserList, mailbox: seq<string>, stale: MailInfo, ghost env: Env)
      returns (status: ExecutionStatus)
      requires Valid() && users.Valid() && env == Env(users.Contents(), mailbox, stale)
      requires job.callback.Some? && InTable(job.callback.value) && CacheReady(View())
               && Allowed(View(), job.callback.value)
      modifies this`crashed, this`mailCache, this`sessionState, this`username, outputBuff, outputBuff.buffer,
               CacheRepr(), users.nodes
      ensures Valid() && users.Valid() && (mailCache == old(mailCache) || fresh(CacheRepr()))
      ensures Handled(status, View(), users.Contents()) == Execute(old(View()), job, env)
    {
      hide Valid, View, UserList.Views, UniqueNames, CheckValidPassword, WithoutMails, OnMails, Execute, Allowed,
        CacheReady;
      ExecuteParts(View(), job, env);
      if job.callback.value.verb == PASS {
        status := CheckPassword(job.arg1, users, mailbox, env);
      } else if job.callback.value.verb in {USER, NOOP, QUIT, CAPA} {
        status := ExecuteWithoutMails(job, users, env);
      } else {
        status := ExecuteOnMails(job, stale, users, env);
      }
    }

    /** Frees the command that was executed, or notes that it has to go on. */
    method Settle(functionStatus: ExecutionStatus)
      requires Valid() && currentCommand != null && currentCommand.live && outstanding == {currentCommand}
      modifies this`commandState, this`outstanding, currentCommand
      ensures Valid() && Accounted() && View() == old(View()).(processing := functionStatus == NOT_FINISHED)
    {
      hide Valid, View;
      if functionStatus == FINISHED {
        commandState := AVAILABLE;
        FreeCommand(currentCommand);
      } else if functionStatus == NOT_FINISHED {
        commandState := PROCESSING;
      } else {
        FreeCommand(currentCommand);
        commandState := AVAILABLE;
      }
      CommandChanged();
    }

    /** Executes the current command and frees it unless it has to go on later. */
    method RunCommand(users: UserList.UserList, mailbox: seq<string>, stale: MailInfo, ghost env: Env)
      requires Valid() && users.Valid() && env == Env(users.Contents(), mailbox, stale)
      requires currentCommand != null && currentCommand.live && outstanding == {currentCommand}
      requires var callback := currentCommand.job.callback;
               callback.Some? && InTable(callback.value) && CacheReady(View()) && Allowed(View(), callback.value)
      modifies this`crashed, this`mailCache, this`sessionState, this`username, this`commandState, this`outstanding,
               outputBuff, outputBuff.buffer, CacheRepr(), users.nodes, currentCommand
      ensures Valid() && Accounted() && users.Valid() && currentCommand == old(currentCommand)
      ensures mailCache == old(mailCache) || fresh(CacheRepr())
      ensures Turn(View(), users.Contents()) == RunCurrent(old(View()), env)
    {
      hide Valid, View, UserList.Views, UniqueNames, Execute, Allowed, CacheReady;
      var functionStatus := ExecuteCommand(currentCommand.job, users, mailbox, stale, env);
      label Executed:
      Settle(functionStatus);
      users.Untouched@Executed();
    }

    /** Answers a command that cannot be executed and frees it. */
    method Refuse(command: CommandToExecute, message: string)
      requires Valid() && commandState == AVAILABLE && command.live && outstanding == {command}
               && command != currentCommand
      modifies this`crashed, this`outstanding, outputBuff, outputBuff.buffer, command
      ensures Valid() && Accounted() && View() == Write(old(View()), message)
    {
      hide Valid, View, Window;
      PutInBuffer(message);
      label Answered:
      FreeCommand(command);
      Untouched@Answered();
    }

    /** The first command of the queue, in an allocation of its own. */
    method Dequeue() returns (command: CommandToExecute)
      requires Valid() && commandList != null && Available(commandList.Contents())
      modifies this`outstanding, commandList
      ensures Valid() && fresh(command) && command.live && outstanding == old(outstanding) + {command}
      ensures command.job == JobOf(old(commandList.Contents())[0])
      ensures View() == old(View()).(queue := old(commandList.Contents())[1..])
    {
      hide Valid, View, CommandList.Views;
      var job := commandList.GetFirstCommand();
      command := new CommandToExecute(job.value);
      outstanding := outstanding + {command};
      QueueChanged();
    }

    /** Takes the first command from the queue; one that cannot be executed is answered and freed at once. */
    method TakeCommand() returns (ready: bool)
      requires Valid() && Accounted() && commandList != null && commandState == AVAILABLE
      requires Available(commandList.Contents())
      modifies this`crashed, this`currentCommand, this`outstanding, outputBuff, outputBuff.buffer, commandList
      ensures Valid()
      ensures var first, rest := old(commandList.Contents())[0],
              old(View()).(queue := old(commandList.Contents())[1..]);
              if first.executeCommand.Some? && Allowed(rest, first.executeCommand.value)
              then
                && ready && currentCommand != null && fresh(currentCommand) && currentCommand.live
                && outstanding == {currentCommand} && View() == rest.(current := Some(JobOf(first)))
              else
                && !ready && Accounted() && currentCommand == old(currentCommand)
                && View() == Write(rest, if first.executeCommand == None then INVALID_COMMAND else INVALID_STATE)
    {
      hide Valid, View, CommandList.Views;
      var command := Dequeue();
      label Taken:
      if command.job.callback == None {
        Refuse(command, INVALID_COMMAND);
        return false;
      }
      var needed := command.job.callback.value.stateNeeded;
      if needed != ANY && sessionState != needed {
        Refuse(command, INVALID_STATE);
        return false;
      }
      currentCommand := command;
      CommandChanged@Taken();
      ready := true;
    }

    /** No command is under way: the first of the queue is taken, and executed if it can be. */
    method ExecuteNext(users: UserList.UserList, mailbox: seq<string>, stale: MailInfo, ghost env: Env)
      requires Valid() && Accounted() && commandList != null && Dispatchable(View())
      requires commandState == AVAILABLE && Available(View().queue)
      requires users.Valid() && env == Env(users.Contents(), mailbox, stale)
      modifies this`crashed, this`mailCache, this`sessionState, this`username, this`commandState, this`outstanding,
               this`currentCommand, commandList, outputBuff, outputBuff.buffer, CacheRepr(), users.nodes
      ensures Valid() && Accounted() && users.Valid()
      ensures mailCache == old(mailCache) || fresh(CacheRepr())
      ensures currentCommand == old(currentCommand) || fresh(currentCommand)
      ensures Turn(View(), users.Contents()) == ExecuteFirstCommand(old(View()), env)
    {
      hide Valid, View, UserList.Views, UniqueNames, CommandList.Views, RunCurrent, InTable, FromTable, Write;
      QueueView();
      NextCommand(View(), env);
      var ready := TakeCommand();
      users.Untouched();
      ghost var taken := currentCommand;
      assert taken == old(currentCommand) || fresh(taken);
      if ready {
        RunCommand(users, mailbox, stale, env);
      }
    }

    method ExecuteFirst(users: UserList.UserList, mailbox: seq<string>, stale: MailInfo, ghost env: Env)
      requires Valid() && Accounted() && commandList != null && Dispatchable(View())
      requires users.Valid() && env == Env(users.Contents(), mailbox, stale)
      modifies this`crashed, this`mailCache, this`sessionState, this`username, this`commandState, this`outstanding,
               this`currentCommand, commandList, outputBuff, outputBuff.buffer, CacheRepr(), users.nodes, currentCommand
      ensures Valid() && Accounted() && users.Valid()
      ensures mailCache == old(mailCache) || fresh(CacheRepr())
      ensures currentCommand == old(currentCommand) || fresh(currentCommand)
      ensures Turn(View(), users.Contents()) == ExecuteFirstCommand(old(View()), env)
    {
      hide Valid, View, UserList.Views, UniqueNames, CommandList.Views, RunCurrent, FromTable;
      QueueView();
      if commandList.AvailableCommands() || commandState == PROCESSING {
        if commandState == AVAILABLE {
          ExecuteNext(users, mailbox, stale, env);
        } else {
          RunCommand(users, mailbox, stale, env);
        }
      }
    }

    lemma QueueView()
      requires Valid() && commandList != null
      ensures View().queue == commandList.Contents()
      ensures commandState == PROCESSING ==> currentCommand != null && currentCommand.live
    {
    }

    // ---------- reading, writing, opening and closing ----------

    /** memset, and the mark of a vacant slot. */
    method ResetSlot()
      requires outputBuff.Valid() && outstanding == {}
      modifies this, outputBuff, outputBuff.buffer
      ensures Valid() && Accounted() && outstanding == {} && View() == VACANT.(crashed := old(crashed))
              && crashed == old(crashed)
      ensures currentCommand == null
    {
      outputBuff.Clear();
      commandList, currentCommand, mailCache := null, null, null;
      sessionState, clientState, username, commandState := ANY, READING, "", AVAILABLE;
      socket := NOT_ALLOCATED;
    }

    /** The list of commands and the cache are freed with the slot. */
    method CloseSlot(users: UserList.UserList)
      requires Valid() && Accounted() && users.Valid()
      modifies this, outputBuff, outputBuff.buffer, users.nodes, currentCommand
      ensures Valid() && Accounted() && users.Valid()
              && mailCache == (if old(socket) == NOT_ALLOCATED then old(mailCache) else null)
      ensures Turn(View(), users.Contents()) == CloseClient(old(View()), old(users.Contents()))
      ensures old(socket) != NOT_ALLOCATED ==> socket == NOT_ALLOCATED && currentCommand == null
      ensures old(socket) == NOT_ALLOCATED ==> currentCommand == old(currentCommand)
    {
      hide UserList.Views, UniqueNames, CommandList.Views, Window, ToggleConnected, Reading;
      if socket == NOT_ALLOCATED {
        return;
      }
      if commandState == PROCESSING {
        FreeCommand(currentCommand);
      }
      users.Untouched();
      users.ToggleUserConnected(username, false);
      label Toggled:
      ResetSlot();
      users.Untouched@Toggled();
    }

    twostate lemma StateChanged()
      requires old(Valid()) && unchanged(outputBuff) && unchanged(outputBuff.buffer)
      requires unchanged(this`commandList, this`socket, this`sessionState, this`username, this`mailCache, this`crashed,
                         this`currentCommand, this`commandState)
      requires commandList != null ==> unchanged(commandList) && unchanged(commandList.nodes)
      requires mailCache != null ==> unchanged(mailCache.Repr())
      requires currentCommand != null ==> unchanged(currentCommand)
      ensures Valid() && View() == old(View()).(clientState := clientState)
    {
      hide Window, CommandList.Views, Reading;
    }

    method SetClientState(state: ClientState, ghost users: UserList.UserList)
      requires Valid() && users.Valid()
      modifies this`clientState
      ensures Valid() && View() == old(View()).(clientState := state)
      ensures users.Valid() && users.Contents() == old(users.Contents())
    {
      hide Valid, View, UserList.Views, UniqueNames;
      clientState := state;
      StateChanged();
      users.Untouched();
    }

    method TakeOut(toWrite: nat, ghost users: UserList.UserList) returns (auxiliaryBuffer: array<char>)
      requires Valid() && users.Valid() && toWrite == |View().out|
      modifies outputBuff, outputBuff.buffer
      ensures Valid() && View() == old(View()).(out := "") && auxiliaryBuffer[..] == old(View()).out
      ensures users.Valid() && users.Contents() == old(users.Contents())
    {
      hide Valid, View, UserList.Views, UniqueNames, Window;
      auxiliaryBuffer := new char[toWrite];
      var bytesRead := outputBuff.ReadData(auxiliaryBuffer, toWrite);
      OutputChanged();
      users.Untouched();
    }

    method PutBack(rest: string, ghost users: UserList.UserList)
      requires Valid() && users.Valid() && View().out == ""
      modifies this`crashed, outputBuff, outputBuff.buffer
      ensures Valid() && View() == Write(old(View()), rest)
      ensures users.Valid() && users.Contents() == old(users.Contents())
    {
      hide Valid, View, UserList.Views, UniqueNames;
      if rest != "" {
        PutInBuffer(rest);
      }
      users.Untouched();
    }

    /** Takes everything out of the ring, offers it to send and puts back what was not taken; false if the client was
        closed. */
    method Drain(users: UserList.UserList, send: Send) returns (alive: bool)
      requires Valid() && Accounted() && users.Valid() && (send.Sent? ==> send.n <= |View().out|)
      modifies this, outputBuff, outputBuff.buffer, users.nodes, currentCommand
      ensures Valid() && Accounted() && users.Valid()
      ensures currentCommand == old(currentCommand) || currentCommand == null
      ensures alive ==> unchanged(this`commandList, this`mailCache, this`commandState, this`currentCommand, this`socket)
      ensures var c := old(View());
              if c.out != "" && send.SendFailed? then
                !alive && Turn(View(), users.Contents()) == CloseClient(c.(out := ""), old(users.Contents()))
              else
                && alive && users.Contents() == old(users.Contents())
                && View() == if c.out == "" then c else Write(c.(out := ""), c.out[send.n..])
    {
      hide Valid, View, UserList.Views, UniqueNames, Window, Write;
      var toWrite := outputBuff.OccupiedSpace();
      if toWrite == 0 {
        return true;
      }
      var auxiliaryBuffer := TakeOut(toWrite, users);
      if send.SendFailed? {
        CloseSlot(users);
        return false;
      }
      PutBack(auxiliaryBuffer[send.n..], users);
      alive := true;
    }

    /** `send`: what send does with the bytes it is offered. */
    method WriteToSocket(users: UserList.UserList, send: Send)
      requires Valid() && Accounted() && users.Valid() && (send.Sent? ==> send.n <= |View().out|)
      requires socket != NOT_ALLOCATED
      modifies this, outputBuff, outputBuff.buffer, users.nodes, currentCommand
      ensures Valid() && Accounted() && users.Valid()
      ensures currentCommand == old(currentCommand) || currentCommand == null
      ensures Turn(View(), users.Contents()) == WriteToClient(old(View()), old(users.Contents()), send)
    {
      hide Valid, View, UserList.Views, UniqueNames, Window;
      QueueView();
      var alive := Drain(users, send);
      if alive {
        QueueView();
        if outputBuff.IsEmpty() && !commandList.AvailableCommands() && commandState == AVAILABLE {
          SetClientState(READING, users);
        }
      }
    }

    method AddData(data: string)
      requires Valid() && commandList != null && Ordered(View().queue)
      requires CommandList.ReceiveBuffer(data, MAXCOMMANDLENGTH)
      modifies commandList, commandList.nodes
      ensures Valid() && View() == old(View()).(queue := Receive(old(View()).queue, data[..MAXCOMMANDLENGTH]))
    {
      hide Valid, View, CommandList.Views, Receive, Ordered, CommandList.ReceiveBuffer;
      QueueView();
      commandList.AddData(data, MAXCOMMANDLENGTH);
      QueueChanged();
    }

    /** The bytes received are put into the receive buffer, a NUL behind them, and the parser reads the buffer. */
    method ParseData(users: UserList.UserList, piece: string, stale: string)
      requires Valid() && users.Valid() && commandList != null && Ordered(View().queue) && |piece| <= MAXCOMMANDLENGTH
      requires StaleBuffer(stale)
      modifies commandList, commandList.nodes
      ensures Valid() && users.Valid() && users.Contents() == old(users.Contents())
      ensures View() == old(View()).(queue := Receive(old(View()).queue, Buffered(piece, stale)))
    {
      hide Valid, View, UserList.Views, CommandList.Views, UniqueNames, Receive, Ordered;
      var auxiliaryBuffer := piece + "\0" + stale[|piece| + 1..];
      assert CommandList.ReceiveBuffer(auxiliaryBuffer, MAXCOMMANDLENGTH);
      AddData(auxiliaryBuffer);
      users.Untouched();
    }

    method ReceiveData(users: UserList.UserList, piece: string, stale: string)
      requires Valid() && users.Valid() && commandList != null && Ordered(View().queue) && |piece| <= MAXCOMMANDLENGTH
      requires StaleBuffer(stale)
      modifies this`clientState, commandList, commandList.nodes
      ensures Valid() && users.Valid() && users.Contents() == old(users.Contents())
      ensures View() ==
              old(View()).(queue := Receive(old(View()).queue, Buffered(piece, stale)), clientState := WRITING)
    {
      hide Valid, View, UserList.Views, CommandList.Views, UniqueNames, Receive, Ordered, Buffered;
      ParseData(users, piece, stale);
      SetClientState(WRITING, users);
    }

    /** `recv`: what recv gives; `stale`: what its buffer held before. */
    method ReadFromSocket(users: UserList.UserList, recv: Recv, stale: string)
      requires Valid() && Accounted() && users.Valid() && commandList != null && Ordered(View().queue)
      requires (recv.Data? ==> |recv.piece| <= MAXCOMMANDLENGTH) && StaleBuffer(stale)
      modifies this, outputBuff, outputBuff.buffer, users.nodes, currentCommand, commandList, commandList.nodes
      ensures Valid() && Accounted() && users.Valid()
      ensures Turn(View(), users.Contents()) ==
              ReadFromClient(old(View()), old(users.Contents()),
                             if recv.Data? then Data(Buffered(recv.piece, stale)) else recv)
    {
      hide Valid, View, UserList.Views, CommandList.Views, UniqueNames, Receive, Ordered, Buffered;
      match recv
      case ReceiveError =>
      case EndOfStream => CloseSlot(users);
      case Data(piece) => ReceiveData(users, piece, stale);
    }

    /** acceptConnection: the slot is given to a new client, who is greeted. */
    method AcceptClient(sockNum: nat)
      requires Valid() && Accounted() && View() == VACANT && commandState == AVAILABLE
      modifies this, outputBuff, outputBuff.buffer
      ensures Valid() && Accounted() && View() == Accept(old(View()))
    {
      hide Window, CommandList.Views, Reading;
      socket := sockNum;
      sessionState := AUTHENTICATION;
      clientState := WRITING;
      commandList := new CommandList.CommandList();
      assert Valid() && View() == VACANT.(open := true, sessionState := AUTHENTICATION, clientState := WRITING,
             queue := []);
      PutInBuffer(GREETING);
    }

    /** writeToClient, and the end of a session whose QUIT has been answered in full. */
    method WriteAndClose(users: UserList.UserList, send: Send)
      requires Valid() && Accounted() && users.Valid() && (send.Sent? ==> send.n <= |View().out|)
      requires socket != NOT_ALLOCATED
      modifies this, outputBuff, outputBuff.buffer, users.nodes, currentCommand
      ensures Valid() && Accounted() && users.Valid()
      ensures var t := WriteToClient(old(View()), old(users.Contents()), send);
              Turn(View(), users.Contents()) ==
              if t.conn.clientState == READING && t.conn.sessionState == UPDATE then CloseClient(t.conn, t.users) else t
    {
      hide Valid, View, UserList.Views, UniqueNames, WriteToClient;
      WriteToSocket(users, send);
      if clientState == READING && sessionState == UPDATE {
        CloseSlot(users);
      }
    }

    /** The branch of `handleClients` for a client whose socket can be written. */
    method HandleWritableSocket(users: UserList.UserList, mailbox: seq<string>, stale: MailInfo, send: Send,
                                ghost env: Env)
      requires Valid() && Accounted() && socket != NOT_ALLOCATED && commandList != null
      requires users.Valid() && env == Env(users.Contents(), mailbox, stale) && Dispatchable(View())
      requires send.Sent? ==> send.n <= |Respond(View(), env).conn.out|
      modifies this, outputBuff, outputBuff.buffer, commandList, CacheRepr(), users.nodes, currentCommand
      ensures Valid() && Accounted() && users.Valid()
      ensures Turn(View(), users.Contents()) == HandleWritable(old(View()), env, send)
    {
      hide Valid, View, UserList.Views, UniqueNames, ExecuteFirstCommand, Dispatchable, WriteToClient;
      if outputBuff.FreeSpace() > MAX_SINGLE_LINE_RESPONSE {
        ExecuteFirst(users, mailbox, stale, env);
      }
      WriteAndClose(users, send);
    }
  }

  /** What a receive buffer can hold before: anything, with a NUL in its last place. */
  predicate StaleBuffer(stale: string) {
    |stale| == MAXCOMMANDLENGTH + 1 && stale[MAXCOMMANDLENGTH] == '\0'
  }

  /** What the parser finds there after a recv. */
  function Buffered(piece: string, stale: string): string
    requires |piece| <= MAXCOMMANDLENGTH && StaleBuffer(stale)
  {
    (piece + "\0" + stale[|piece| + 1..])[..MAXCOMMANDLENGTH]
  }

  /** What the dispatcher does when no command is under way. */
  lemma NextCommand(c: Conn, env: Env)
    requires Dispatchable(c) && !c.processing && Available(c.queue)
    ensures var first, rest := c.queue[0], c.(queue := c.queue[1..]);
            if first.executeCommand.Some? && Allowed(rest, first.executeCommand.value)
            then
              && InTable(first.executeCommand.value) && CacheReady(rest)
              && ExecuteFirstCommand(c, env) == RunCurrent(rest.(current := Some(JobOf(first))), env)
            else
              ExecuteFirstCommand(c, env) ==
              Turn(Write(rest, if first.executeCommand == None then INVALID_COMMAND else INVALID_STATE), env.users)
  {
    hide RunCurrent, InTable;
  }

  lemma ExecuteParts(c: Conn, job: Job, env: Env)
    requires job.callback.Some? && InTable(job.callback.value) && CacheReady(c) && Allowed(c, job.callback.value)
    ensures job.callback.value.verb in {STAT, LIST, RETR, DELE, RSET} ==> c.cache.Some?
    ensures Execute(c, job, env) ==
            if job.callback.value.verb == PASS then CheckValidPassword(c, job.arg1, env)
            else if job.callback.value.verb in {USER, NOOP, QUIT, CAPA} then WithoutMails(c, job, env)
            else OnMails(c, job, env)
  {
    hide OnMails, WithoutMails, CheckValidPassword;
    TableNeeds(job.callback.value);
  }

  lemma WelcomeOnly(env: Env, username: string, password: string, message: string)
    requires message == if !ValidPassword(env.users, username, password) then AUTHENTICATION_FAILED
                        else if IsConnected(env.users, username) then ALREADY_CONNECTED else WELCOME
    ensures message == WELCOME <==> ValidPassword(env.users, username, password) && !IsConnected(env.users, username)
  {
    hide ValidPassword, IsConnected;
    assert WELCOME[0] == '+' && ALREADY_CONNECTED[0] == '-' && AUTHENTICATION_FAILED[0] == '-';
  }

  lemma ListStops(c: Conn, info: MailInfo)
    requires c.cache.Some? && !(FreeSpace(c) > MAX_SINGLE_LINE_RESPONSE && HasNext(c.cache.value))
    ensures ContinueList(c, info) == c
  {
  }
}
