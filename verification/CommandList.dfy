/** The queue of received commands: a linked list of lines, filled in place from pieces of the stream. */
module CommandList {
  import opened Text
  import opened Commands
  import opened Parsing

  /** The receive buffer, which ends with NULs from place `n` on: at least with the one that keeps the parser inside
      it. */
  ghost predicate ReceiveBuffer(data: string, n: nat) {
    && n <= MAXCOMMANDLENGTH && |data| == MAXCOMMANDLENGTH + 1
    && forall i | n <= i < |data| :: data[i] == '\0'
  }

  class CommandNode {
    var command: string
    var arg1: string
    var arg2: string
    var executeCommand: Option<CommandWithState>
    var commandStatus: Status
    var receivedCR: bool
    var next: CommandNode?
    /** How many nodes the list got before this one. */
    ghost const serial: nat

    constructor (ghost serial: nat)
      ensures View() == NEW_COMMAND && next == null && this.serial == serial
    {
      this.serial := serial;
      command, arg1, arg2 := "", "", "";
      executeCommand, commandStatus, receivedCR, next := None, WRITINGCOMMAND, false, null;
    }

    function View(): FullCommand
      reads this
    {
      FullCommand(command, arg1, arg2, executeCommand, commandStatus, receivedCR)
    }

    /** `*(aux.buffer + idx++) = c` for the buffer the setup points to. */
    method Put(field: Field, c: char)
      modifies this
      ensures View() == Append(old(View()), field, c) && next == old(next)
    {
      match field
      case InCommand => command := command + [c];
      case InArg1 => arg1 := arg1 + [c];
      case InArg2 => arg2 := arg2 + [c];
    }

    method ProcessWriting(data: string, from: nat, ghost n: nat) returns (processed: nat)
      requires ReceiveBuffer(data, n) && from < n && data[from] != '\0' && Writing(commandStatus)
      modifies this
      ensures next == old(next) && from + processed <= n
      ensures commandStatus != COMPLETEINVALID
      ensures commandStatus == COMPLETE ==> processed > 0
      ensures Writing(commandStatus) ==> processed > 0 && data[from + processed] == '\0'
      ensures old(Rest(View(), false, data[from..n])) == Rest(View(), false, data[from + processed..n])
    {
      hide Lookup, Read;
      var finishedParsing := false;
      var field := FieldOf(commandStatus);
      var i := 0;
      ghost var soft := false;
      while !finishedParsing
        invariant next == old(next) && (finishedParsing ==> i > 0)
        invariant from + i <= n + (if finishedParsing then 1 else 0)
        invariant field == FieldOf(commandStatus) && commandStatus != COMPLETEINVALID
        invariant !finishedParsing ==> Writing(commandStatus) || soft || data[from + i] == '\0'
        invariant soft ==> commandStatus == INVALID && !finishedParsing
        invariant commandStatus == COMPLETE || Writing(commandStatus) ==> i > 1 || !finishedParsing
        invariant commandStatus == COMPLETE ==> i > 0
        invariant finishedParsing && Writing(commandStatus) ==> data[from + i - 1] == '\0'
        invariant old(Rest(View(), false, data[from..n])) ==
                  Rest(View(), soft, data[if finishedParsing then from + i - 1 else from + i..n])
        decreases !finishedParsing, n - from - i
      {
        var c := data[from + i];
        ghost var rest := if c != '\0' then data[from + i + 1..n] else "";
        if c != '\0' {
          assert data[from + i..n] == [c] + rest;
          ReadByte(View(), soft, c, rest);
        } else {
          SoftIsOver(View(), soft, data[from + i..n]);
        }
        if c == '\0' {
          finishedParsing := true;
          soft := false;
        } else if receivedCR {
          commandStatus := if c == '\n' then COMPLETE else INVALID;
          field := FieldOf(commandStatus);
          soft := false;
          if data[from + i + 1] != '\0' {
            finishedParsing := true;
            i := i + 1;
          }
        } else if c == ' ' {
          commandStatus := field.AfterSpace();
          soft := field == InArg2;
          field := FieldOf(commandStatus);
        } else if c == '\r' {
          receivedCR := true;
        } else if |TextIn(View(), field)| >= field.MaxSize() {
          commandStatus := INVALID;
          finishedParsing := true;
          soft := false;
          field := FieldOf(commandStatus);
          ReadByte(View(), false, c, rest);
        } else if Printable(c) {
          Put(field, c);
        } else {
          commandStatus := INVALID;
          finishedParsing := true;
          soft := false;
          field := FieldOf(commandStatus);
          ReadByte(View(), false, c, rest);
        }
        i := i + 1;
      }
      processed := i - 1;
    }

    /** The count includes the NUL it stops on. */
    method DiscardUntilCRLF(data: string, from: nat, ghost n: nat) returns (processed: nat)
      requires ReceiveBuffer(data, n) && from <= n && commandStatus == INVALID
      modifies this
      ensures next == old(next) && 0 < processed && from + processed <= n + 1
      ensures !Writing(commandStatus) && commandStatus != COMPLETE
      ensures old(Rest(View(), false, data[from..n])) == Receive([View()], data[Min(from + processed, n)..n])
    {
      hide Lookup, Read, Receive;
      var finishedParsing := false;
      var i := 0;
      while !finishedParsing
        invariant next == old(next) && (finishedParsing ==> i > 0)
        invariant from + i <= n + (if finishedParsing then 1 else 0)
        invariant commandStatus == INVALID || (finishedParsing && commandStatus == COMPLETEINVALID)
        invariant old(Rest(View(), false, data[from..n])) ==
                  if finishedParsing then Receive([View()], data[Min(from + i, n)..n])
                  else Rest(View(), false, data[from + i..n])
        decreases !finishedParsing, n - from - i
      {
        var c := data[from + i];
        if c != '\0' {
          assert data[from + i..n] == [c] + data[from + i + 1..n];
          ReadByte(View(), false, c, data[from + i + 1..n]);
        } else {
          ReadAtNul(View(), data[from + i..n]);
          assert from + i < n ==> data[from + i..n][1..] == data[from + i + 1..n];
        }
        if c == '\0' {
          finishedParsing := true;
        } else if c == '\r' {
          receivedCR := true;
        } else if c == '\n' && receivedCR {
          commandStatus := COMPLETEINVALID;
          finishedParsing := true;
          ReadIsReceive(View(), data[from + i + 1..n]);
        } else {
          receivedCR := false;
        }
        i := i + 1;
      }
      processed := i;
    }

    method ProcessNode(data: string, from: nat, ghost n: nat) returns (charactersProcessed: nat)
      requires ReceiveBuffer(data, n) && from < n && data[from] != '\0' && !Parsed(View())
      modifies this
      ensures next == old(next) && 0 < charactersProcessed && from + charactersProcessed <= n + 1
      ensures old(Receive([View()], data[from..n])) == Receive([View()], data[Min(from + charactersProcessed, n)..n])
    {
      hide Lookup, Read, Receive;
      ReceiveIsRead(View(), data[from..n]);
      charactersProcessed := 0;
      if Writing(commandStatus) {
        charactersProcessed := ProcessWriting(data, from, n);
      }
      ghost var c, rest := View(), data[from + charactersProcessed..n];
      if commandStatus == COMPLETE {
        var entry := GetCommand(command);
        if entry.Some? {
          executeCommand := entry;
        } else {
          commandStatus := COMPLETEINVALID;
        }
        assert View() == Resolve(c);
        ReadIsReceive(View(), rest);
      } else if commandStatus == INVALID {
        var discarded := DiscardUntilCRLF(data, from + charactersProcessed, n);
        charactersProcessed := charactersProcessed + discarded;
      } else {
        ReadIsReceive(View(), rest);
      }
    }
  }

  function Views(nodes: seq<CommandNode>): (views: seq<FullCommand>)
    reads nodes
    ensures |views| == |nodes| && forall i | 0 <= i < |nodes| :: views[i] == nodes[i].View()
  {
    if nodes == [] then [] else [nodes[0].View()] + Views(nodes[1..])
  }

  function Follower(nodes: seq<CommandNode>, i: nat): CommandNode?
    requires i < |nodes|
  {
    if i + 1 < |nodes| then nodes[i + 1] else null
  }

  class CommandList {
    var first: CommandNode?
    var last: CommandNode?
    /** The nodes that can be reached from `first`, in order. */
    ghost var nodes: seq<CommandNode>
    /** How many nodes have been taken out. */
    ghost var taken: nat

    ghost predicate Valid()
      reads this, nodes
    {
      && (forall i | 0 <= i < |nodes| :: nodes[i].serial == taken + i)
      && (forall i {:trigger nodes[i].next} | 0 <= i < |nodes| :: nodes[i].next == Follower(nodes, i))
      && (if nodes == [] then first == null && last == null else first == nodes[0] && last == nodes[|nodes| - 1])
    }

    /** The nodes are `before` and newly allocated ones. */
    twostate predicate Extends(before: seq<CommandNode>)
      reads this
    {
      before <= nodes && forall i | |before| <= i < |nodes| :: fresh(nodes[i])
    }

    ghost function Contents(): seq<FullCommand>
      reads this, nodes
    {
      Views(nodes)
    }

    constructor ()
      ensures Valid() && nodes == []
    {
      first, last, nodes, taken := null, null, [], 0;
    }

    method AddNode() returns (node: CommandNode)
      requires Valid()
      modifies this, nodes
      ensures Valid() && fresh(node) && nodes == old(nodes) + [node]
      ensures Contents() == old(Contents()) + [NEW_COMMAND] && node == last
    {
      hide Views;
      node := new CommandNode(taken + |nodes|);
      if first == null {
        first := node;
        last := node;
      } else {
        last.next := node;
        last := last.next;
      }
      nodes := nodes + [node];
      assert forall i | 0 <= i < |old(nodes)| :: nodes[i] == old(nodes)[i] && nodes[i].View() == old(nodes[i].View());
    }

    method DeleteFirst()
      requires Valid()
      modifies this
      ensures Valid()
      ensures nodes == if old(nodes) == [] then [] else old(nodes)[1..]
      ensures Contents() == if old(nodes) == [] then [] else old(Contents())[1..]
    {
      hide Views;
      if first != null {
        if first == last {
          assert nodes == [first];
          first, last := null, null;
        } else {
          first := first.next;
        }
        nodes, taken := nodes[1..], taken + 1;
        assert forall i | 0 <= i < |nodes| ::
            nodes[i] == old(nodes)[i + 1] && nodes[i].View() == old(nodes[i + 1].View());
        assert forall i | 0 <= i < |nodes| :: nodes[i].next == Follower(old(nodes), i + 1);
      }
    }

    /** The node the next byte belongs to: a new one after a parsed line. */
    method NodeToProcess() returns (node: CommandNode)
      requires Valid() && Ordered(Contents())
      modifies this, nodes
      ensures Valid() && nodes != [] && node == nodes[|nodes| - 1] && !Parsed(node.View())
      ensures Extends(old(nodes))
      ensures Contents() == if LineOpen(old(Contents())) then old(Contents()) else old(Contents()) + [NEW_COMMAND]
    {
      hide Views;
      if first == null || last.commandStatus == COMPLETE || last.commandStatus == COMPLETEINVALID {
        node := AddNode();
      } else {
        node := last;
      }
    }

    /** `processNode` on the last node of the list. */
    method ProcessInPlace(node: CommandNode, data: string, from: nat, ghost n: nat) returns (processed: nat)
      requires Valid() && nodes != [] && node == nodes[|nodes| - 1] && !Parsed(node.View())
      requires ReceiveBuffer(data, n) && from < n && data[from] != '\0'
      modifies node
      ensures Valid() && 0 < processed && from + processed <= n + 1
      ensures Contents() == old(Contents())[|nodes| - 1 := node.View()]
      ensures old(Receive([node.View()], data[from..n])) == Receive([node.View()], data[Min(from + processed, n)..n])
    {
      hide Receive, Views;
      processed := node.ProcessNode(data, from, n);
      assert forall i | 0 <= i < |nodes| :: nodes[i].next == old(nodes[i].next);
      assert forall i | 0 <= i < |nodes| - 1 :: nodes[i].View() == old(nodes[i].View());
    }

    /** The body of the loop of `addData`. */
    method ProcessLast(data: string, from: nat, ghost n: nat) returns (processed: nat)
      requires Valid() && Ordered(Contents()) && ReceiveBuffer(data, n) && from < n && data[from] != '\0'
      modifies this, nodes
      ensures 0 < processed && from + processed <= n + 1
      ensures Valid() && Ordered(Contents())
      ensures Extends(old(nodes))
      ensures Receive(old(Contents()), data[from..n]) == Receive(Contents(), data[Min(from + processed, n)..n])
    {
      hide Receive, Views, Ordered;
      ghost var before, rest := Contents(), data[from..n];
      var node := NodeToProcess();
      ghost var queue := Contents();
      OpenLine(before, queue, rest);
      assert queue[|queue| - 1] == node.View();
      processed := ProcessInPlace(node, data, from, n);
      LastReplaced(queue, Contents(), rest, data[Min(from + processed, n)..n]);
    }

    /** `data` is the receive buffer; NULs in it are read as they are met, whether received or left there before. */
    method AddData(data: string, ghost n: nat)
      requires Valid() && Ordered(Contents()) && ReceiveBuffer(data, n)
      modifies this, nodes
      ensures Valid() && Extends(old(nodes))
      ensures Contents() == Receive(old(Contents()), data[..n]) && Ordered(Contents())
    {
      hide Receive, Views;
      var charactersProcessed := 0;
      assert data[0..n] == data[..n];
      while charactersProcessed != MAXCOMMANDLENGTH + 1 && data[charactersProcessed] != '\0'
        invariant Valid() && Ordered(Contents()) && charactersProcessed <= n + 1
        invariant Extends(old(nodes))
        invariant Receive(old(Contents()), data[..n]) == Receive(Contents(), data[Min(charactersProcessed, n)..n])
        decreases n + 1 - charactersProcessed
      {
        var processed := ProcessLast(data, charactersProcessed, n);
        charactersProcessed := charactersProcessed + processed;
      }
      ReceiveNothing(Contents(), data[Min(charactersProcessed, n)..n]);
    }

    /** Is the first line parsed? */
    predicate AvailableCommands()
      requires Valid()
      reads this, nodes
      ensures AvailableCommands() <==> Available(Contents())
    {
      first != null && (first.commandStatus == COMPLETE || first.commandStatus == COMPLETEINVALID)
    }

    method GetFirstCommand() returns (job: Option<Job>)
      requires Valid()
      modifies this
      ensures Valid()
      ensures if old(Available(Contents()))
              then job == Some(JobOf(old(Contents())[0])) && Contents() == old(Contents())[1..]
                && nodes == old(nodes)[1..]
              else job == None && Contents() == old(Contents()) && nodes == old(nodes)
    {
      if !AvailableCommands() {
        return None;
      }
      job := Some(JobOf(first.View()));
      DeleteFirst();
    }
  }

  /** What reading `rest` comes to when the queue holds only a line that `processWriting` has left in state `c`. */
  ghost function Rest(c: FullCommand, soft: bool, rest: string): seq<FullCommand> {
    Read(Parser([if c.status == COMPLETE then Resolve(c) else c], soft), rest)
  }

  lemma ReadByte(c: FullCommand, soft: bool, byte: char, rest: string)
    requires !Parsed(c) && byte != '\0'
    ensures var s := ScanByte(Scan(c, soft), byte);
            Read(Parser([c], soft), [byte] + rest) == Read(Parser([s.cmd], s.soft), rest)
  {
    hide ScanByte, Read;
    var s := ScanByte(Scan(c, soft), byte);
    var all := [byte] + rest;
    assert all[0] == byte && all[1..] == rest;
    assert [c][..0] + [s.cmd] == [s.cmd];
    ReadFirst(Parser([c], soft), all);
  }

  lemma ReadFirst(p: Parser, s: string)
    requires s != "" && s[0] != '\0'
    ensures Read(p, s) == Read(Step(p, s[0]), s[1..])
  {
  }

  /** At the end of what was received, or at a NUL, an invalid line that is discarded steps over one place. */
  lemma ReadAtNul(c: FullCommand, rest: string)
    requires c.status == INVALID && (rest == "" || rest[0] == '\0')
    ensures Rest(c, false, rest) == Receive([c], if rest == "" then "" else rest[1..])
  {
  }

  /** After a parsed line, or at the end, reading on is what the loop of `addData` does. */
  lemma ReadIsReceive(c: FullCommand, rest: string)
    requires Parsed(c) || (Writing(c.status) && (rest == "" || rest[0] == '\0'))
    ensures Read(Parser([c], false), rest) == Receive([c], rest)
  {
  }

  lemma ReceiveIsRead(c: FullCommand, rest: string)
    requires rest != "" && rest[0] != '\0' && !Parsed(c)
    ensures Receive([c], rest) == Rest(c, false, rest)
  {
  }

  lemma SoftIsOver(c: FullCommand, soft: bool, rest: string)
    requires rest == "" || rest[0] == '\0'
    ensures Rest(c, soft, rest) == Rest(c, false, rest)
  {
  }

  lemma ReceiveNothing(queue: seq<FullCommand>, rest: string)
    requires rest == "" || rest[0] == '\0'
    ensures Receive(queue, rest) == queue
  {
  }

  /** A byte after a parsed line starts a new one. */
  lemma OpenLine(before: seq<FullCommand>, queue: seq<FullCommand>, rest: string)
    requires Ordered(before) && rest != "" && rest[0] != '\0'
    requires queue == if LineOpen(before) then before else before + [NEW_COMMAND]
    ensures Receive(before, rest) == Receive(queue, rest) && Ordered(queue)
  {
    hide Read, ScanByte;
    if !LineOpen(before) {
      assert queue[|queue| - 1] == NEW_COMMAND && queue[..|queue| - 1] == before;
      assert Step(Parser(before, false), rest[0]) == Step(Parser(queue, false), rest[0]);
    }
  }

  lemma ReceiveLast(queue: seq<FullCommand>, rest: string)
    requires queue != [] && Ordered(queue)
    ensures Receive(queue, rest) == queue[..|queue| - 1] + Receive([queue[|queue| - 1]], rest)
  {
    hide Receive;
    ReceiveAfter(queue[..|queue| - 1], [queue[|queue| - 1]], rest);
    assert queue == queue[..|queue| - 1] + [queue[|queue| - 1]];
  }

  lemma LastReplaced(queue: seq<FullCommand>, queue': seq<FullCommand>, rest: string, rest': string)
    requires queue != [] && Ordered(queue) && |queue'| == |queue| && queue'[..|queue| - 1] == queue[..|queue| - 1]
    requires Receive([queue[|queue| - 1]], rest) == Receive([queue'[|queue| - 1]], rest')
    ensures Receive(queue, rest) == Receive(queue', rest') && Ordered(queue')
  {
    hide Receive;
    assert forall i | 0 <= i < |queue| - 1 :: queue'[i] == queue'[..|queue| - 1][i];
    ReceiveLast(queue, rest);
    ReceiveLast(queue', rest');
  }
}
