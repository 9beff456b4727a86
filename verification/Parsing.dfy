/** The command parser on values: one automaton over bytes, and how pieces of the stream reach it. */
module Parsing {
  import opened Text
  import opened Commands

  datatype Status = WRITINGCOMMAND | WRITINGARG1 | WRITINGARG2 | COMPLETE | INVALID | COMPLETEINVALID

  datatype FullCommand = FullCommand(
    command: string,
    arg1: string,
    arg2: string,
    executeCommand: Option<CommandWithState>,
    status: Status,
    receivedCR: bool)

  const NEW_COMMAND: FullCommand := FullCommand("", "", "", None, WRITINGCOMMAND, false)

  predicate Writing(status: Status) {
    status == WRITINGCOMMAND || status == WRITINGARG1 || status == WRITINGARG2
  }

  predicate Parsed(c: FullCommand) {
    c.status == COMPLETE || c.status == COMPLETEINVALID
  }

  predicate Printable(c: char) {
    ' ' <= c <= '~'
  }

  // ---------- one byte of one line ----------

  /** The buffer `processWriting` fills, with the status a space leads to and the room there is. */
  datatype Field = InCommand | InArg1 | InArg2 {
    function AfterSpace(): Status {
      match this
      case InCommand => WRITINGARG1
      case InArg1 => WRITINGARG2
      case InArg2 => INVALID
    }

    function MaxSize(): nat {
      if InCommand? then MAXCOMMANDSIZE else MAXARGSIZE
    }
  }

  /** Set up from the status; a third space leaves the setup for the second argument in place. */
  function FieldOf(status: Status): Field {
    match status
    case WRITINGCOMMAND => InCommand
    case WRITINGARG1 => InArg1
    case _ => InArg2
  }

  function TextIn(c: FullCommand, field: Field): string {
    match field
    case InCommand => c.command
    case InArg1 => c.arg1
    case InArg2 => c.arg2
  }

  function Append(c: FullCommand, field: Field, byte: char): FullCommand {
    match field
    case InCommand => c.(command := c.command + [byte])
    case InArg1 => c.(arg1 := c.arg1 + [byte])
    case InArg2 => c.(arg2 := c.arg2 + [byte])
  }

  /** A line being read. `soft`: its status is INVALID because of a third space, but `processWriting` is still reading
      it. */
  datatype Scan = Scan(cmd: FullCommand, soft: bool)

  /** A line that ended well is looked up. */
  function Resolve(c: FullCommand): FullCommand {
    var entry := Lookup(c.command);
    if entry.Some? then c.(executeCommand := entry, status := COMPLETE) else c.(status := COMPLETEINVALID)
  }

  /** One byte of `processWriting`. */
  function WriteByte(s: Scan, byte: char): Scan {
    var c, field := s.cmd, FieldOf(s.cmd.status);
    if c.receivedCR then
      Scan(if byte == '\n' then Resolve(c) else c.(status := INVALID), false)
    else if byte == ' ' then
      Scan(c.(status := field.AfterSpace()), field == InArg2)
    else if byte == '\r' then
      Scan(c.(receivedCR := true), s.soft)
    else if |TextIn(c, field)| >= field.MaxSize() || !Printable(byte) then
      Scan(c.(status := INVALID), false)
    else
      Scan(Append(c, field, byte), s.soft)
  }

  /** One byte of `discardUntilCRLF`. */
  function DiscardByte(c: FullCommand, byte: char): FullCommand {
    if byte == '\r' then c.(receivedCR := true)
    else if byte == '\n' && c.receivedCR then c.(status := COMPLETEINVALID)
    else c.(receivedCR := false)
  }

  function ScanByte(s: Scan, byte: char): Scan {
    if Writing(s.cmd.status) || s.soft then WriteByte(s, byte) else Scan(DiscardByte(s.cmd, byte), false)
  }

  // ---------- one byte of the stream ----------

  /** The queue of lines, the last of them perhaps unfinished, and whether it is softly invalid. */
  datatype Parser = Parser(queue: seq<FullCommand>, soft: bool)

  predicate LineOpen(queue: seq<FullCommand>) {
    queue != [] && !Parsed(queue[|queue| - 1])
  }

  function Step(p: Parser, byte: char): Parser {
    var last := |p.queue| - 1;
    var s := ScanByte(if LineOpen(p.queue) then Scan(p.queue[last], p.soft) else Scan(NEW_COMMAND, false), byte);
    Parser((if LineOpen(p.queue) then p.queue[..last] else p.queue) + [s.cmd], s.soft)
  }

  function Fold(p: Parser, s: string): Parser
    decreases |s|
  {
    if s == "" then p else Fold(Step(p, s[0]), s[1..])
  }

  // ---------- one piece of the stream ----------

  /** What is left of a piece is read up to a NUL; while an invalid line is discarded a single NUL is stepped over. */
  function Read(p: Parser, s: string): seq<FullCommand>
    decreases |s|
  {
    if s == "" then p.queue
    else if s[0] == '\0' then
      if LineOpen(p.queue) && p.queue[|p.queue| - 1].status == INVALID then Receive(p.queue, s[1..]) else p.queue
    else Read(Step(p, s[0]), s[1..])
  }

  /** `addData` on one received piece: nothing of the parser's place inside a line but its status is kept between
      pieces. */
  function Receive(queue: seq<FullCommand>, piece: string): seq<FullCommand>
    decreases |piece|, 1
  {
    if piece == "" || piece[0] == '\0' then queue else Read(Step(Parser(queue, false), piece[0]), piece[1..])
  }

  function ReceiveAll(queue: seq<FullCommand>, pieces: seq<string>): seq<FullCommand>
    decreases |pieces|
  {
    if pieces == [] then queue else ReceiveAll(Receive(queue, pieces[0]), pieces[1..])
  }

  // ---------- taking lines out ----------

  /** Is the first line parsed? */
  predicate Available(queue: seq<FullCommand>) {
    queue != [] && Parsed(queue[0])
  }

  /** `command_to_execute`: the copy handed to the handlers. */
  datatype Job = Job(command: string, arg1: string, arg2: string, callback: Option<CommandWithState>)

  function JobOf(c: FullCommand): Job {
    Job(c.command, c.arg1, c.arg2, c.executeCommand)
  }

  // ---------- lines already parsed are never touched again ----------

  /** Only the last line of the queue can be unfinished. */
  ghost predicate Ordered(queue: seq<FullCommand>) {
    forall i | 0 <= i < |queue| - 1 :: Parsed(queue[i])
  }

  ghost predicate AllParsed(queue: seq<FullCommand>) {
    forall i | 0 <= i < |queue| :: Parsed(queue[i])
  }

  lemma StepAfter(done: seq<FullCommand>, p: Parser, byte: char)
    requires AllParsed(done)
    ensures Step(Parser(done + p.queue, p.soft), byte) == Parser(done + Step(p, byte).queue, Step(p, byte).soft)
  {
    var q := done + p.queue;
    if p.queue == [] {
      assert q == done;
    } else {
      assert q[|q| - 1] == p.queue[|p.queue| - 1];
      assert q[..|q| - 1] == done + p.queue[..|p.queue| - 1];
    }
  }

  lemma {:induction false} ReadAfter(done: seq<FullCommand>, p: Parser, s: string)
    requires AllParsed(done)
    ensures Read(Parser(done + p.queue, p.soft), s) == done + Read(p, s)
    decreases |s|, 0
  {
    if s == "" {
    } else if s[0] == '\0' {
      assert LineOpen(done + p.queue) <==> LineOpen(p.queue);
      ReceiveAfter(done, p.queue, s[1..]);
    } else {
      StepAfter(done, p, s[0]);
      ReadAfter(done, Step(p, s[0]), s[1..]);
    }
  }

  /** A piece received later leaves the parsed lines in front of the queue as they are, so taking them out first
      changes nothing. */
  lemma {:induction false} ReceiveAfter(done: seq<FullCommand>, queue: seq<FullCommand>, piece: string)
    requires AllParsed(done)
    ensures Receive(done + queue, piece) == done + Receive(queue, piece)
    decreases |piece|, 1
  {
    if piece != "" && piece[0] != '\0' {
      var p := Parser(queue, false);
      StepAfter(done, p, piece[0]);
      ReadAfter(done, Step(p, piece[0]), piece[1..]);
    }
  }

  lemma StepOrdered(p: Parser, byte: char)
    requires Ordered(p.queue)
    ensures Ordered(Step(p, byte).queue)
    ensures Step(p, byte).queue != []
  {
  }

  lemma {:induction false} ReadOrdered(p: Parser, s: string)
    requires Ordered(p.queue)
    ensures Ordered(Read(p, s))
    decreases |s|, 0
  {
    if s == "" {
    } else if s[0] == '\0' {
      ReceiveOrdered(p.queue, s[1..]);
    } else {
      StepOrdered(p, s[0]);
      ReadOrdered(Step(p, s[0]), s[1..]);
    }
  }

  lemma {:induction false} ReceiveOrdered(queue: seq<FullCommand>, piece: string)
    requires Ordered(queue)
    ensures Ordered(Receive(queue, piece))
    decreases |piece|, 1
  {
    if piece != "" && piece[0] != '\0' {
      StepOrdered(Parser(queue, false), piece[0]);
      ReadOrdered(Step(Parser(queue, false), piece[0]), piece[1..]);
    }
  }

  // ---------- lines fit their buffers and handlers come from the table ----------

  /** A line fits its buffers of 4, 40 and 40 bytes, and has a handler exactly when it is complete: the one that the
      table has for its name. */
  predicate LineOk(c: FullCommand) {
    && |c.command| <= 4 && |c.arg1| <= 40 && |c.arg2| <= 40
    && (c.executeCommand.Some? <==> c.status == COMPLETE)
    && (c.executeCommand.Some? ==> InTable(c.executeCommand.value) && c.executeCommand == Lookup(c.command))
  }

  ghost predicate FromTable(queue: seq<FullCommand>) {
    forall i | 0 <= i < |queue| :: LineOk(queue[i])
  }

  lemma ResolveOk(c: FullCommand)
    requires LineOk(c) && !Parsed(c)
    ensures LineOk(Resolve(c))
  {
    hide InTable;
    LookupSound(VALID_COMMANDS, c.command);
    if Lookup(c.command).Some? {
      assert InTable(Lookup(c.command).value) by {
        FoundInTable(Lookup(c.command).value);
      }
    }
  }

  lemma FoundInTable(entry: CommandWithState)
    requires entry in VALID_COMMANDS
    ensures InTable(entry)
  {
  }

  lemma ByteOk(s: Scan, byte: char)
    requires LineOk(s.cmd) && !Parsed(s.cmd)
    ensures LineOk(ScanByte(s, byte).cmd)
  {
    hide Lookup, InTable, Resolve;
    ResolveOk(s.cmd);
  }

  lemma StepFromTable(p: Parser, byte: char)
    requires FromTable(p.queue)
    ensures FromTable(Step(p, byte).queue)
  {
    hide LineOk, ScanByte;
    var s := if LineOpen(p.queue) then Scan(p.queue[|p.queue| - 1], p.soft) else Scan(NEW_COMMAND, false);
    assert LineOk(NEW_COMMAND) by {
      NewOk();
    }
    ByteOk(s, byte);
  }

  lemma NewOk()
    ensures LineOk(NEW_COMMAND)
  {
  }

  lemma {:induction false} ReadFromTable(p: Parser, s: string)
    requires FromTable(p.queue)
    ensures FromTable(Read(p, s))
    decreases |s|, 0
  {
    hide FromTable;
    if s == "" {
    } else if s[0] == '\0' {
      ReceiveFromTable(p.queue, s[1..]);
    } else {
      StepFromTable(p, s[0]);
      ReadFromTable(Step(p, s[0]), s[1..]);
    }
  }

  lemma {:induction false} ReceiveFromTable(queue: seq<FullCommand>, piece: string)
    requires FromTable(queue)
    ensures FromTable(Receive(queue, piece))
    decreases |piece|, 1
  {
    hide FromTable;
    if piece != "" && piece[0] != '\0' {
      StepFromTable(Parser(queue, false), piece[0]);
      ReadFromTable(Step(Parser(queue, false), piece[0]), piece[1..]);
    }
  }
}
