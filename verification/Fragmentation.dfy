/** Which cuts of the stream the parser does not notice, and the commands a client can rely on getting through. */
module Fragmentation {
  import opened Text
  import opened Commands
  import opened Parsing

  predicate NoNul(s: string) {
    forall i | 0 <= i < |s| :: s[i] != '\0'
  }

  lemma {:induction false} ReadIsFold(p: Parser, s: string)
    requires NoNul(s)
    ensures Read(p, s) == Fold(p, s).queue
    decreases |s|
  {
    if s != "" {
      ReadIsFold(Step(p, s[0]), s[1..]);
    }
  }

  lemma ReceiveIsFold(queue: seq<FullCommand>, piece: string)
    requires NoNul(piece)
    ensures Receive(queue, piece) == Fold(Parser(queue, false), piece).queue
  {
    if piece != "" {
      ReadIsFold(Step(Parser(queue, false), piece[0]), piece[1..]);
    }
  }

  lemma {:induction false} FoldAppend(p: Parser, s: string, t: string)
    ensures Fold(p, s + t) == Fold(Fold(p, s), t)
    decreases |s|
  {
    if s == "" {
      assert s + t == t;
    } else {
      assert (s + t)[0] == s[0] && (s + t)[1..] == s[1..] + t;
      FoldAppend(Step(p, s[0]), s[1..], t);
    }
  }

  // ---------- one cut ----------

  /** What the bytes after a third space show: the parser still takes the line for unfinished, unless a cut came
      first. */
  function Witness(cmd: FullCommand): string {
    if cmd.receivedCR then "x" else "\rx"
  }

  /** The soft flag is only ever set on an open line with status INVALID. */
  ghost predicate SoftOk(p: Parser) {
    p.soft ==> LineOpen(p.queue) && p.queue[|p.queue| - 1].status == INVALID
  }

  lemma {:induction false} FoldSoftOk(p: Parser, s: string)
    requires SoftOk(p)
    ensures SoftOk(Fold(p, s))
    decreases |s|
  {
    if s != "" {
      FoldSoftOk(Step(p, s[0]), s[1..]);
    }
  }

  lemma StepLast(p: Parser, byte: char)
    requires LineOpen(p.queue)
    ensures var s, p' := ScanByte(Scan(p.queue[|p.queue| - 1], p.soft), byte), Step(p, byte);
            |p'.queue| == |p.queue| && p'.queue[|p.queue| - 1] == s.cmd && p'.soft == s.soft
  {
    hide Lookup;
  }

  lemma FoldTwo(p: Parser, a: char, b: char)
    ensures Fold(p, [a]) == Step(p, a)
    ensures Fold(p, [a, b]) == Step(Step(p, a), b)
  {
    hide Lookup;
    assert [a][1..] == [] && [a, b][1..] == [b] && [b][1..] == [];
    assert Fold(p, [a, b]) == Fold(Step(p, a), [b]);
    assert Fold(Step(p, a), [b]) == Fold(Step(Step(p, a), b), []);
  }

  lemma StepTwice(p: Parser, a: char, b: char)
    requires LineOpen(p.queue) && LineOpen(Step(p, a).queue)
    ensures var s := ScanByte(ScanByte(Scan(p.queue[|p.queue| - 1], p.soft), a), b);
            var q := Fold(p, [a, b]).queue;
            |q| == |p.queue| && q[|q| - 1] == s.cmd
  {
    hide ScanByte;
    FoldTwo(p, a, b);
    StepLast(p, a);
    StepLast(Step(p, a), b);
  }

  lemma SoftNoticesCut(p: Parser)
    requires SoftOk(p) && p.soft
    ensures var t := Witness(p.queue[|p.queue| - 1]);
            Fold(p, t).queue != Fold(Parser(p.queue, false), t).queue
  {
    hide Fold, Step, Lookup;
    var c := p.queue[|p.queue| - 1];
    var hard := Parser(p.queue, false);
    if c.receivedCR {
      FoldTwo(p, 'x', 'x');
      FoldTwo(hard, 'x', 'x');
      StepLast(p, 'x');
      StepLast(hard, 'x');
    } else {
      StepLast(p, '\r');
      StepLast(hard, '\r');
      StepTwice(p, '\r', 'x');
      StepTwice(hard, '\r', 'x');
    }
  }

  ghost predicate CutHarmless(queue: seq<FullCommand>, s: string) {
    forall t | NoNul(t) :: Receive(Receive(queue, s), t) == Receive(queue, s + t)
  }

  /** A cut after `s` goes unnoticed whatever follows exactly when `s` does not end inside a line with a third space
      that nothing else has spoilt yet. */
  lemma CutHarmlessExactly(queue: seq<FullCommand>, s: string)
    requires NoNul(s)
    ensures CutHarmless(queue, s) <==> !Fold(Parser(queue, false), s).soft
  {
    var start := Parser(queue, false);
    var p := Fold(start, s);
    ReceiveIsFold(queue, s);
    forall t | NoNul(t)
      ensures Receive(Receive(queue, s), t) == Fold(Parser(p.queue, false), t).queue
      ensures Receive(queue, s + t) == Fold(p, t).queue
    {
      ReceiveIsFold(p.queue, t);
      ReceiveIsFold(queue, s + t);
      FoldAppend(start, s, t);
    }
    if p.soft {
      FoldSoftOk(start, s);
      SoftNoticesCut(p);
      assert NoNul(Witness(p.queue[|p.queue| - 1]));
    }
  }

  // ---------- what stands behind a piece ----------

  /** Is the last line being discarded up to its end? */
  predicate Discarding(queue: seq<FullCommand>) {
    LineOpen(queue) && queue[|queue| - 1].status == INVALID
  }

  lemma {:induction false} ReadToNul(p: Parser, s: string, stale: string)
    requires NoNul(s)
    ensures Read(p, s + "\0" + stale) ==
            if Discarding(Read(p, s)) then Receive(Read(p, s), stale) else Read(p, s)
    decreases |s|
  {
    var all := s + "\0" + stale;
    if s == "" {
      assert all[0] == '\0' && all[1..] == stale;
    } else {
      assert all[0] == s[0] && all[1..] == s[1..] + "\0" + stale;
      ReadToNul(Step(p, s[0]), s[1..], stale);
    }
  }

  /** What the receive buffer held before does no harm exactly when the piece does not end in a line that is being
      discarded: there the parser steps over the NUL behind the piece and reads on. */
  lemma StaleBytesHarmlessExactly(queue: seq<FullCommand>, piece: string)
    requires NoNul(piece) && piece != ""
    ensures (forall stale :: Receive(queue, piece + "\0" + stale) == Receive(queue, piece))
            <==> !Discarding(Receive(queue, piece))
  {
    hide Read;
    var q := Receive(queue, piece);
    forall stale: string
      ensures Receive(queue, piece + "\0" + stale) == if Discarding(q) then Receive(q, stale) else q
    {
      var p := Step(Parser(queue, false), piece[0]);
      assert (piece + "\0" + stale)[0] == piece[0] && (piece + "\0" + stale)[1..] == piece[1..] + "\0" + stale;
      ReadToNul(p, piece[1..], stale);
      ReceiveFirst(queue, piece);
      ReceiveFirst(queue, piece + "\0" + stale);
    }
    if Discarding(q) {
      LineIsEnded(q);
      assert Receive(queue, piece + "\0" + CRLF) != q;
    }
  }

  lemma ReceiveFirst(queue: seq<FullCommand>, piece: string)
    requires piece != "" && piece[0] != '\0'
    ensures Receive(queue, piece) == Read(Step(Parser(queue, false), piece[0]), piece[1..])
  {
  }

  lemma LineIsEnded(queue: seq<FullCommand>)
    requires Discarding(queue)
    ensures Receive(queue, CRLF) != queue
  {
    hide Lookup;
    ReceiveIsFold(queue, CRLF);
    StepTwice(Parser(queue, false), '\r', '\n');
    assert CRLF == ['\r', '\n'];
  }

  // ---------- every cut ----------

  /** No prefix of `s` leaves the parser softly invalid. */
  ghost predicate Calm(p: Parser, s: string)
    decreases |s|
  {
    !p.soft && (s == "" || Calm(Step(p, s[0]), s[1..]))
  }

  lemma {:induction false} CalmAppend(p: Parser, s: string, t: string)
    ensures Calm(p, s + t) <==> Calm(p, s) && Calm(Fold(p, s), t)
    decreases |s|
  {
    if s == "" {
      assert s + t == t;
    } else {
      assert (s + t)[0] == s[0] && (s + t)[1..] == s[1..] + t;
      CalmAppend(Step(p, s[0]), s[1..], t);
    }
  }

  lemma {:induction false} CalmEnd(p: Parser, s: string)
    requires Calm(p, s)
    ensures !Fold(p, s).soft
    decreases |s|
  {
    if s != "" {
      CalmEnd(Step(p, s[0]), s[1..]);
    }
  }

  /** Over a calm stream every cut into pieces leaves the queue that the automaton leaves on the whole stream. */
  lemma {:induction false} FragmentationInvariance(queue: seq<FullCommand>, pieces: seq<string>)
    requires NoNul(Concat(pieces)) && Calm(Parser(queue, false), Concat(pieces))
    ensures ReceiveAll(queue, pieces) == Fold(Parser(queue, false), Concat(pieces)).queue
    decreases |pieces|
  {
    if pieces != [] {
      var start, piece, rest := Parser(queue, false), pieces[0], Concat(pieces[1..]);
      assert forall i | 0 <= i < |piece| :: Concat(pieces)[i] == piece[i];
      assert forall i | 0 <= i < |rest| :: Concat(pieces)[|piece| + i] == rest[i];
      ReceiveIsFold(queue, piece);
      CalmAppend(start, piece, rest);
      CalmEnd(start, piece);
      FoldAppend(start, piece, rest);
      assert Fold(start, piece) == Parser(Receive(queue, piece), false);
      FragmentationInvariance(Receive(queue, piece), pieces[1..]);
    }
  }

  // ---------- lines with at most two spaces ----------

  /** How many spaces there are in the last line of `s`, of which `n` came before `s`. */
  function SpacesInLine(s: string, n: nat): nat {
    if s == "" then n
    else SpacesInLine(s[1..], if s[0] == '\n' then 0 else if s[0] == ' ' then n + 1 else n)
  }

  /** No line, counted from one LF to the next, holds more than two spaces. */
  ghost predicate AtMostTwoSpaces(s: string) {
    forall i | 0 <= i <= |s| :: SpacesInLine(s[..i], 0) <= 2
  }

  /** A line being written holds at least as many spaces as its status tells. */
  ghost predicate SpacesCover(p: Parser, n: nat) {
    && (p.soft ==> LineOpen(p.queue) && n >= 3)
    && (LineOpen(p.queue) ==>
          var status := p.queue[|p.queue| - 1].status;
          && (status == WRITINGARG1 ==> n >= 1)
          && (status == WRITINGARG2 ==> n >= 2))
  }

  lemma SpacesCoverStep(p: Parser, n: nat, byte: char)
    requires SpacesCover(p, n)
    ensures SpacesCover(Step(p, byte), if byte == '\n' then 0 else if byte == ' ' then n + 1 else n)
  {
    var s := if LineOpen(p.queue) then Scan(p.queue[|p.queue| - 1], p.soft) else Scan(NEW_COMMAND, false);
    var last := ScanByte(s, byte);
    assert Step(p, byte).queue[|Step(p, byte).queue| - 1] == last.cmd;
    assert byte == '\n' && !Parsed(last.cmd) ==> last.cmd.status == INVALID;
  }

  lemma {:induction false} FewSpacesCalm(p: Parser, s: string, n: nat)
    requires SpacesCover(p, n) && forall i | 0 <= i <= |s| :: SpacesInLine(s[..i], n) <= 2
    ensures Calm(p, s)
    decreases |s|
  {
    assert SpacesInLine(s[..0], n) == n;
    if s != "" {
      var m := if s[0] == '\n' then 0 else if s[0] == ' ' then n + 1 else n;
      SpacesCoverStep(p, n, s[0]);
      forall i | 0 <= i <= |s[1..]|
        ensures SpacesInLine(s[1..][..i], m) <= 2
      {
        assert s[..i + 1][0] == s[0] && s[..i + 1][1..] == s[1..][..i];
        assert SpacesInLine(s[..i + 1], n) <= 2;
      }
      FewSpacesCalm(Step(p, s[0]), s[1..], m);
    }
  }

  /** Streams of lines with at most two spaces are parsed the same way however they are cut. */
  lemma TwoSpacesInvariance(pieces: seq<string>)
    requires NoNul(Concat(pieces)) && AtMostTwoSpaces(Concat(pieces))
    ensures ReceiveAll([], pieces) == Fold(Parser([], false), Concat(pieces)).queue
  {
    FewSpacesCalm(Parser([], false), Concat(pieces), 0);
    FragmentationInvariance([], pieces);
  }

  // ---------- printing and parsing ----------

  datatype Request = Request(name: string, args: seq<string>)

  predicate Word(s: string, maxSize: nat) {
    |s| <= maxSize && forall i | 0 <= i < |s| :: Printable(s[i]) && s[i] != ' '
  }

  /** Text without spaces or control characters. */
  predicate Plain(s: string, maxSize: nat) {
    |s| <= maxSize && forall i | 0 <= i < |s| :: '!' <= s[i] <= '~'
  }

  /** A name of at most four characters and at most two arguments of at most forty. */
  predicate ValidRequest(r: Request) {
    Plain(r.name, 4) && |r.args| <= 2 && forall i | 0 <= i < |r.args| :: Plain(r.args[i], 40)
  }

  function Line(r: Request): string {
    r.name + (if |r.args| > 0 then " " + r.args[0] else "") + (if |r.args| > 1 then " " + r.args[1] else "") + "\r\n"
  }

  function Lines(rs: seq<Request>): string {
    if rs == [] then "" else Line(rs[0]) + Lines(rs[1..])
  }

  /** The line as it should come out of the parser: the words of the request in their places, and the command that the
      name stands for in any case, if it stands for one. */
  function Expected(r: Request): FullCommand {
    var verb := VerbNamed(r.name);
    FullCommand(
      r.name,
      if |r.args| > 0 then r.args[0] else "",
      if |r.args| > 1 then r.args[1] else "",
      if verb.Some? then Some(CommandWithState(Upper(r.name), verb.value, Needed(verb.value))) else None,
      if verb.Some? then COMPLETE else COMPLETEINVALID,
      true)
  }

  /** What the parser makes of a finished line is that. */
  lemma ResolvedIsExpected(r: Request)
    ensures Expected(r) ==
            Resolve(NEW_COMMAND.(
              command := r.name,
              arg1 := if |r.args| > 0 then r.args[0] else "",
              arg2 := if |r.args| > 1 then r.args[1] else "",
              receivedCR := true,
              status := if |r.args| == 0 then WRITINGCOMMAND else if |r.args| == 1 then WRITINGARG1 else WRITINGARG2))
  {
    hide Lookup, VerbNamed, Upper;
    LookupIs(r.name);
  }

  function ExpectedAll(rs: seq<Request>): seq<FullCommand> {
    if rs == [] then [] else [Expected(rs[0])] + ExpectedAll(rs[1..])
  }

  /** A parser in the middle of a line that is still good. */
  function Middle(done: seq<FullCommand>, c: FullCommand): Parser {
    Parser(done + [c], false)
  }

  /** No prefix of `s` leaves a line to be discarded. */
  ghost predicate Sound(p: Parser, s: string)
    decreases |s|
  {
    !Discarding(p.queue) && (s == "" || Sound(Step(p, s[0]), s[1..]))
  }

  lemma {:induction false} SoundAppend(p: Parser, s: string, t: string)
    ensures Sound(p, s + t) <==> Sound(p, s) && Sound(Fold(p, s), t)
    decreases |s|
  {
    if s == "" {
      assert s + t == t;
    } else {
      assert (s + t)[0] == s[0] && (s + t)[1..] == s[1..] + t;
      SoundAppend(Step(p, s[0]), s[1..], t);
    }
  }

  lemma {:induction false} SoundIsCalm(p: Parser, s: string)
    requires SoftOk(p) && Sound(p, s)
    ensures Calm(p, s)
    decreases |s|
  {
    if s != "" {
      FoldSoftOk(p, [s[0]]);
      FoldTwo(p, s[0], s[0]);
      SoundIsCalm(Step(p, s[0]), s[1..]);
    }
  }

  lemma StepWord(done: seq<FullCommand>, c: FullCommand, w: string)
    requires Writing(c.status) && !c.receivedCR && w != "" && Word(w, MAXARGSIZE)
    requires |TextIn(c, FieldOf(c.status))| + |w| <= FieldOf(c.status).MaxSize()
    ensures var next := Append(c, FieldOf(c.status), w[0]);
            && Step(Middle(done, c), w[0]) == Middle(done, next)
            && next.status == c.status && !next.receivedCR
            && TextIn(next, FieldOf(c.status)) == TextIn(c, FieldOf(c.status)) + [w[0]]
    ensures Word(w[1..], MAXARGSIZE)
  {
    var p := Middle(done, c);
    assert p.queue[|p.queue| - 1] == c && p.queue[..|p.queue| - 1] == done;
  }

  lemma {:induction false} FoldWord(done: seq<FullCommand>, c: FullCommand, w: string)
    requires Writing(c.status) && !c.receivedCR
    requires var field := FieldOf(c.status);
             |TextIn(c, field)| + |w| <= field.MaxSize() && Word(w, MAXARGSIZE)
    ensures var field := FieldOf(c.status);
            var end := match field
              case InCommand => c.(command := c.command + w)
              case InArg1 => c.(arg1 := c.arg1 + w)
              case InArg2 => c.(arg2 := c.arg2 + w);
            Fold(Middle(done, c), w) == Middle(done, end) && Sound(Middle(done, c), w)
    decreases |w|
  {
    if w == "" {
      assert c.command + w == c.command && c.arg1 + w == c.arg1 && c.arg2 + w == c.arg2;
    } else {
      hide Step, Word;
      var field := FieldOf(c.status);
      var next := Append(c, field, w[0]);
      StepWord(done, c, w);
      FoldWord(done, next, w[1..]);
      assert TextIn(c, field) + [w[0]] + w[1..] == TextIn(c, field) + w;
    }
  }

  lemma FoldSpace(done: seq<FullCommand>, c: FullCommand)
    requires (c.status == WRITINGCOMMAND || c.status == WRITINGARG1) && !c.receivedCR
    ensures Fold(Middle(done, c), " ") == Middle(done, c.(status := FieldOf(c.status).AfterSpace()))
    ensures Sound(Middle(done, c), " ")
  {
    var p := Middle(done, c);
    assert p.queue[|p.queue| - 1] == c && p.queue[..|p.queue| - 1] == done;
    assert " "[0] == ' ' && " "[1..] == "";
  }

  lemma FoldCRLF(done: seq<FullCommand>, c: FullCommand)
    requires Writing(c.status) && !c.receivedCR
    ensures Fold(Middle(done, c), CRLF) == Middle(done, Resolve(c.(receivedCR := true)))
    ensures Sound(Middle(done, c), CRLF)
  {
    var p, p1 := Middle(done, c), Middle(done, c.(receivedCR := true));
    assert p.queue[|p.queue| - 1] == c && p.queue[..|p.queue| - 1] == done;
    assert p1.queue[|p1.queue| - 1] == c.(receivedCR := true) && p1.queue[..|p1.queue| - 1] == done;
    assert CRLF[0] == '\r' && CRLF[1..] == "\n" && "\n"[0] == '\n' && "\n"[1..] == "";
    assert Step(p, '\r') == p1;
  }

  /** Both facts about `s` then `t`. */
  lemma FoldThen(p: Parser, s: string, t: string)
    requires Sound(p, s) && Sound(Fold(p, s), t)
    ensures Fold(p, s + t) == Fold(Fold(p, s), t) && Sound(p, s + t)
  {
    FoldAppend(p, s, t);
    SoundAppend(p, s, t);
  }

  lemma FoldArgument(done: seq<FullCommand>, c: FullCommand, w: string)
    requires (c.status == WRITINGCOMMAND && c.arg1 == "") || (c.status == WRITINGARG1 && c.arg2 == "")
    requires !c.receivedCR && Word(w, MAXARGSIZE)
    ensures var end := if c.status == WRITINGCOMMAND then c.(status := WRITINGARG1, arg1 := w)
                       else c.(status := WRITINGARG2, arg2 := w);
            Fold(Middle(done, c), " " + w) == Middle(done, end) && Sound(Middle(done, c), " " + w)
  {
    FoldSpace(done, c);
    FoldWord(done, c.(status := FieldOf(c.status).AfterSpace()), w);
    FoldThen(Middle(done, c), " ", w);
    assert "" + w == w;
  }

  lemma RequestWords(r: Request)
    requires ValidRequest(r)
    ensures Word(r.name, MAXCOMMANDSIZE) && Word(r.name, MAXARGSIZE)
    ensures forall i | 0 <= i < |r.args| :: Word(r.args[i], MAXARGSIZE)
  {
  }

  lemma FoldMiddleLine(done: seq<FullCommand>, r: Request)
    requires ValidRequest(r)
    ensures Fold(Middle(done, NEW_COMMAND), Line(r)) == Middle(done, Expected(r))
    ensures Sound(Middle(done, NEW_COMMAND), Line(r))
  {
    hide Step, Lookup, Expected, VerbNamed;
    ResolvedIsExpected(r);
    RequestWords(r);
    var p := Middle(done, NEW_COMMAND);
    var c := NEW_COMMAND.(command := r.name);
    FoldWord(done, NEW_COMMAND, r.name);
    assert "" + r.name == r.name;
    var s := r.name;
    if |r.args| > 0 {
      FoldArgument(done, c, r.args[0]);
      FoldThen(p, s, " " + r.args[0]);
      c := c.(status := WRITINGARG1, arg1 := r.args[0]);
      s := s + (" " + r.args[0]);
    }
    if |r.args| > 1 {
      FoldArgument(done, c, r.args[1]);
      FoldThen(p, s, " " + r.args[1]);
      c := c.(status := WRITINGARG2, arg2 := r.args[1]);
      s := s + (" " + r.args[1]);
    }
    FoldCRLF(done, c);
    FoldThen(p, s, CRLF);
    assert Line(r) == s + CRLF;
  }

  /** A line starts the same way whether its node is there already or not. */
  lemma FoldStart(done: seq<FullCommand>, s: string)
    requires !LineOpen(done) && s != ""
    ensures Fold(Parser(done, false), s) == Fold(Middle(done, NEW_COMMAND), s)
    ensures Sound(Parser(done, false), s) <==> Sound(Middle(done, NEW_COMMAND), s)
  {
    hide Lookup;
    var p := Middle(done, NEW_COMMAND);
    assert p.queue[|p.queue| - 1] == NEW_COMMAND && p.queue[..|p.queue| - 1] == done;
    assert Step(Parser(done, false), s[0]) == Step(p, s[0]);
  }

  lemma FoldLine(done: seq<FullCommand>, r: Request)
    requires AllParsed(done) && ValidRequest(r)
    ensures Fold(Parser(done, false), Line(r)) == Parser(done + [Expected(r)], false)
    ensures Sound(Parser(done, false), Line(r))
    ensures NoNul(Line(r)) && AllParsed(done + [Expected(r)])
  {
    hide Step;
    FoldMiddleLine(done, r);
    FoldStart(done, Line(r));
  }

  lemma {:induction false} FoldLines(done: seq<FullCommand>, rs: seq<Request>)
    requires AllParsed(done) && forall i | 0 <= i < |rs| :: ValidRequest(rs[i])
    ensures Fold(Parser(done, false), Lines(rs)) == Parser(done + ExpectedAll(rs), false)
    ensures Sound(Parser(done, false), Lines(rs))
    ensures NoNul(Lines(rs))
    decreases |rs|
  {
    hide Step, Line, Expected, ValidRequest;
    if rs == [] {
      assert done + ExpectedAll(rs) == done;
    } else {
      FoldLine(done, rs[0]);
      FoldLines(done + [Expected(rs[0])], rs[1..]);
      FoldThen(Parser(done, false), Line(rs[0]), Lines(rs[1..]));
      assert done + [Expected(rs[0])] + ExpectedAll(rs[1..]) == done + ExpectedAll(rs);
    }
  }

  /** Commands printed one per line come back as they were, with the handlers of the table, however the stream
      is cut. */
  lemma PrintParse(rs: seq<Request>, pieces: seq<string>)
    requires forall i | 0 <= i < |rs| :: ValidRequest(rs[i])
    requires Concat(pieces) == Lines(rs)
    ensures ReceiveAll([], pieces) == ExpectedAll(rs)
  {
    FoldLines([], rs);
    SoundIsCalm(Parser([], false), Lines(rs));
    FragmentationInvariance([], pieces);
  }

  /** A receive buffer in which a piece stands, perhaps with a NUL and older bytes behind it. */
  ghost predicate Carries(buffer: string, piece: string) {
    buffer == piece || exists stale :: buffer == piece + "\0" + stale
  }

  /** As long as no line is discarded the older bytes are never read. */
  lemma {:induction false} OlderBytesUnread(queue: seq<FullCommand>, buffers: seq<string>, pieces: seq<string>)
    requires |buffers| == |pieces| && forall i | 0 <= i < |pieces| :: Carries(buffers[i], pieces[i])
    requires NoNul(Concat(pieces)) && Sound(Parser(queue, false), Concat(pieces))
    ensures ReceiveAll(queue, buffers) == ReceiveAll(queue, pieces)
    decreases |pieces|
  {
    hide Step, Receive;
    if pieces != [] {
      var piece, rest := pieces[0], Concat(pieces[1..]);
      assert forall i | 0 <= i < |piece| :: Concat(pieces)[i] == piece[i];
      assert forall i | 0 <= i < |rest| :: Concat(pieces)[|piece| + i] == rest[i];
      var start := Parser(queue, false);
      ReceiveIsFold(queue, piece);
      SoundAppend(start, piece, rest);
      SoundIsCalm(start, piece);
      CalmEnd(start, piece);
      SoundStart(Fold(start, piece), rest);
      assert Fold(start, piece) == Parser(Receive(queue, piece), false);
      BufferReceived(queue, buffers[0], piece);
      OlderBytesUnread(Receive(queue, piece), buffers[1..], pieces[1..]);
    }
  }

  lemma SoundStart(p: Parser, s: string)
    requires Sound(p, s)
    ensures !Discarding(p.queue)
  {
  }

  lemma BufferReceived(queue: seq<FullCommand>, buffer: string, piece: string)
    requires Carries(buffer, piece) && NoNul(piece) && !Discarding(Receive(queue, piece))
    ensures Receive(queue, buffer) == Receive(queue, piece)
  {
    hide Read, Discarding;
    if piece != "" {
      StaleBytesHarmlessExactly(queue, piece);
    }
  }

  /** "USER a b ", with the third space read and nothing after it. */
  const AFTER_THIRD_SPACE: FullCommand := NEW_COMMAND.(command := "USER", arg1 := "a", arg2 := "b", status := INVALID)

  /** Two arguments are being written after a name and two words. */
  lemma ReachTwo(name: string, a: string, b: string)
    requires Word(name, MAXCOMMANDSIZE) && Word(name, MAXARGSIZE) && Word(a, MAXARGSIZE) && Word(b, MAXARGSIZE)
    ensures Fold(Parser([], false), name + (" " + a) + (" " + b)) ==
            Middle([], NEW_COMMAND.(command := name, arg1 := a, arg2 := b, status := WRITINGARG2))
  {
    hide Step, Fold, Sound, Word;
    var p := Middle([], NEW_COMMAND);
    var c1 := NEW_COMMAND.(command := name);
    WordFits(name);
    FoldWord([], NEW_COMMAND, name);
    assert "" + name == name;
    FoldArgument([], c1, a);
    FoldArgument([], c1.(status := WRITINGARG1, arg1 := a), b);
    FoldAppend(p, name, " " + a);
    FoldAppend(p, name + (" " + a), " " + b);
    FoldStart([], name + (" " + a) + (" " + b));
  }

  lemma WordFits(name: string)
    requires Word(name, MAXCOMMANDSIZE)
    ensures |name| <= MAXCOMMANDSIZE
  {
  }

  lemma UserWords()
    ensures Word("USER", MAXCOMMANDSIZE) && Word("USER", MAXARGSIZE) && Word("a", MAXARGSIZE) && Word("b", MAXARGSIZE)
    ensures "USER" + (" " + "a") + (" " + "b") == "USER a b"
  {
  }

  lemma ReachSecondArgument()
    ensures Fold(Parser([], false), "USER a b") == Middle([], AFTER_THIRD_SPACE.(status := WRITINGARG2))
  {
    hide Fold, Word;
    UserWords();
    ReachTwo("USER", "a", "b");
  }

  lemma ReachThirdSpace()
    ensures Fold(Parser([], false), "USER a b ") == Parser([AFTER_THIRD_SPACE], true)
  {
    hide Fold, Lookup;
    ReachSecondArgument();
    FoldAppend(Parser([], false), "USER a b", " ");
    assert "USER a b" + " " == "USER a b ";
    var p := Middle([], AFTER_THIRD_SPACE.(status := WRITINGARG2));
    FoldTwo(p, ' ', ' ');
    assert p.queue == [AFTER_THIRD_SPACE.(status := WRITINGARG2)];
    StepLast(p, ' ');
    assert Step(p, ' ').queue == [AFTER_THIRD_SPACE];
  }

  lemma LineEndsAfterThirdSpace(soft: bool)
    ensures var q := Fold(Parser([AFTER_THIRD_SPACE], soft), "c\r\n").queue;
            && |q| == 1
            && q[0].status == (if soft then COMPLETE else COMPLETEINVALID)
            && q[0].arg2 == (if soft then "bc" else "b")
  {
    hide Step, Lookup;
    var p := Parser([AFTER_THIRD_SPACE], soft);
    FoldAppend(p, "c\r", "\n");
    assert "c\r" + "\n" == "c\r\n";
    FoldTwo(p, 'c', '\r');
    StepLast(p, 'c');
    StepLast(Step(p, 'c'), '\r');
    FoldTwo(Fold(p, "c\r"), '\n', '\n');
    StepLast(Fold(p, "c\r"), '\n');
    assert "b" + "c" == "bc";
    LookupExactly("USER", VALID_COMMANDS[0]);
  }

  /** A line with three spaces is a command when it comes in one piece and an error when a cut follows the third
      space. */
  lemma ThirdSpaceDependsOnCut()
    ensures var whole, cut := Receive([], "USER a b c\r\n"), Receive(Receive([], "USER a b "), "c\r\n");
            && |whole| == |cut| == 1
            && whole[0].status == COMPLETE && whole[0].arg2 == "bc"
            && cut[0].status == COMPLETEINVALID && cut[0].arg2 == "b"
  {
    hide Step, Fold, Read, Receive, Lookup;
    ReachThirdSpace();
    LineEndsAfterThirdSpace(true);
    LineEndsAfterThirdSpace(false);
    FoldAppend(Parser([], false), "USER a b ", "c\r\n");
    assert "USER a b " + "c\r\n" == "USER a b c\r\n";
    ReceiveIsFold([], "USER a b c\r\n");
    ReceiveIsFold([], "USER a b ");
    ReceiveIsFold([AFTER_THIRD_SPACE], "c\r\n");
  }

  // ---------- the text of a line that a cut spoils ----------

  /** What is left of a text without its spaces. */
  function Unspaced(s: string): string {
    if s == "" then "" else (if s[0] == ' ' then "" else [s[0]]) + Unspaced(s[1..])
  }

  predicate AllPrintable(s: string) {
    forall i | 0 <= i < |s| :: Printable(s[i])
  }

  /** A name, an argument and more with another space in it, all of it printable and within the limits, perhaps a CR. */
  ghost predicate SoftLineOf(l: string, name: string, arg: string, tail: string, cr: string) {
    && l == name + " " + arg + " " + tail + cr
    && Word(name, MAXCOMMANDSIZE) && Word(arg, MAXARGSIZE)
    && AllPrintable(tail) && ' ' in tail && |Unspaced(tail)| <= MAXARGSIZE
    && (cr == "" || cr == "\r")
  }

  /** An unfinished line of three fields within their limits, with at least three spaces. */
  ghost predicate SoftLine(l: string) {
    exists name, arg, tail, cr :: SoftLineOf(l, name, arg, tail, cr)
  }

  lemma {:induction false} UnspacedAppend(s: string, c: char)
    ensures Unspaced(s + [c]) == Unspaced(s) + if c == ' ' then "" else [c]
  {
    if s == "" {
      assert (s + [c])[1..] == "";
    } else {
      assert (s + [c])[1..] == s[1..] + [c];
      UnspacedAppend(s[1..], c);
    }
  }

  // ---------- such a line is read to its end ----------

  lemma StepTail(done: seq<FullCommand>, c: FullCommand, soft: bool, byte: char)
    requires !c.receivedCR && Printable(byte) && (c.status == WRITINGARG2 || (c.status == INVALID && soft))
    requires byte == ' ' || |c.arg2| < MAXARGSIZE
    ensures Step(Parser(done + [c], soft), byte) ==
            if byte == ' ' then Parser(done + [c.(status := INVALID)], true)
            else Parser(done + [c.(arg2 := c.arg2 + [byte])], soft)
  {
    var p := Parser(done + [c], soft);
    assert p.queue[|p.queue| - 1] == c && p.queue[..|p.queue| - 1] == done;
  }

  lemma {:induction false} FoldTail(done: seq<FullCommand>, c: FullCommand, soft: bool, tail: string)
    requires !c.receivedCR && ((c.status == WRITINGARG2 && !soft) || (c.status == INVALID && soft))
    requires AllPrintable(tail) && |c.arg2| + |Unspaced(tail)| <= MAXARGSIZE
    ensures var end := c.(arg2 := c.arg2 + Unspaced(tail), status := if ' ' in tail then INVALID else c.status);
            Fold(Parser(done + [c], soft), tail) == Parser(done + [end], soft || ' ' in tail)
    decreases |tail|
  {
    if tail == "" {
      assert c.arg2 + "" == c.arg2;
    } else {
      hide Step, Fold, Unspaced;
      StepTail(done, c, soft, tail[0]);
      TailFirst(Parser(done + [c], soft), c.arg2, tail);
      if tail[0] == ' ' {
        FoldTail(done, c.(status := INVALID), true, tail[1..]);
      } else {
        FoldTail(done, c.(arg2 := c.arg2 + [tail[0]]), soft, tail[1..]);
      }
    }
  }

  lemma TailFirst(p: Parser, written: string, tail: string)
    requires tail != ""
    ensures Fold(p, tail) == Fold(Step(p, tail[0]), tail[1..])
    ensures ' ' in tail <==> tail[0] == ' ' || ' ' in tail[1..]
    ensures written + Unspaced(tail) ==
            (if tail[0] == ' ' then written else written + [tail[0]]) + Unspaced(tail[1..])
    ensures |Unspaced(tail)| == |Unspaced(tail[1..])| + if tail[0] == ' ' then 0 else 1
    ensures AllPrintable(tail) ==> Printable(tail[0]) && AllPrintable(tail[1..])
  {
    hide Step;
    assert tail == [tail[0]] + tail[1..];
    if tail[0] == ' ' {
      assert "" + Unspaced(tail[1..]) == Unspaced(tail[1..]);
    } else {
      assert written + [tail[0]] + Unspaced(tail[1..]) == written + ([tail[0]] + Unspaced(tail[1..]));
    }
  }

  lemma FoldParts(p: Parser, a: string, b: string, c: string, d: string)
    ensures Fold(p, a + b + c + d) == Fold(Fold(Fold(Fold(p, a), b), c), d)
  {
    hide Fold;
    FoldAppend(p, a, b);
    FoldAppend(p, a + b, c);
    FoldAppend(p, a + b + c, d);
  }

  lemma SoftLineRun(done: seq<FullCommand>, l: string, name: string, arg: string, tail: string, cr: string)
    requires !LineOpen(done) && SoftLineOf(l, name, arg, tail, cr)
    ensures Fold(Parser(done, false), l).soft
  {
    hide Step, Fold, AllPrintable, Unspaced, Sound;
    var p := Middle(done, NEW_COMMAND);
    var c1 := NEW_COMMAND.(command := name);
    var c2 := c1.(status := WRITINGARG1, arg1 := arg);
    var c3 := c2.(status := WRITINGARG2);
    LineParts(l, name, arg, tail, cr);
    FoldStart(done, l);
    FoldWord(done, NEW_COMMAND, name);
    assert "" + name == name;
    FoldArgument(done, c1, arg);
    FoldSpace(done, c2);
    FoldTail(done, c3, false, tail);
    FoldParts(p, name, " " + arg, " ", tail + cr);
    FoldAppend(Middle(done, c3), tail, cr);
    FoldCr(Fold(Middle(done, c3), tail), cr);
  }

  lemma LineParts(l: string, name: string, arg: string, tail: string, cr: string)
    requires SoftLineOf(l, name, arg, tail, cr)
    ensures l == name + (" " + arg) + " " + (tail + cr) && l != ""
  {
  }

  lemma FoldCr(p: Parser, cr: string)
    requires p.soft && LineOpen(p.queue) && !p.queue[|p.queue| - 1].receivedCR && (cr == "" || cr == "\r")
    ensures Fold(p, cr).soft
  {
    if cr == "\r" {
      FoldTwo(p, '\r', '\r');
    }
  }

  // ---------- and no other line is ----------

  /** The text a line was read from, as far as it was read well. */
  ghost predicate ReadFrom(c: FullCommand, soft: bool, l: string) {
    var cr := if c.receivedCR then "\r" else "";
    && Word(c.command, MAXCOMMANDSIZE) && Word(c.arg1, MAXARGSIZE) && Word(c.arg2, MAXARGSIZE)
    && match c.status
       case WRITINGCOMMAND => !soft && c.arg1 == "" && c.arg2 == "" && l == c.command + cr
       case WRITINGARG1 => !soft && c.arg2 == "" && l == c.command + " " + c.arg1 + cr
       case WRITINGARG2 => !soft && l == c.command + " " + c.arg1 + " " + c.arg2 + cr
       case INVALID => soft && exists tail :: TailOf(c, l, tail, cr)
       case _ => false
  }

  ghost predicate TailOf(c: FullCommand, l: string, tail: string, cr: string) {
    SoftLineOf(l, c.command, c.arg1, tail, cr) && Unspaced(tail) == c.arg2
  }

  /** Is the line past saving? */
  predicate Hard(c: FullCommand, soft: bool) {
    c.status == INVALID && !soft
  }

  lemma WordGrows(w: string, c: char, n: nat)
    requires Word(w, n) && |w| < n && Printable(c) && c != ' '
    ensures Word(w + [c], n)
  {
  }

  lemma TailGrows(c: FullCommand, l: string, tail: string, byte: char)
    requires TailOf(c, l, tail, "") && Printable(byte) && (byte == ' ' || |c.arg2| < MAXARGSIZE)
    ensures TailOf(if byte == ' ' then c else c.(arg2 := c.arg2 + [byte]), l + [byte], tail + [byte], "")
  {
    UnspacedAppend(tail, byte);
    TailText(c.command, c.arg1, tail, [byte]);
    assert c.arg2 + "" == c.arg2;
  }

  lemma TailText(name: string, arg: string, tail: string, more: string)
    ensures name + " " + arg + " " + tail + "" + more == name + " " + arg + " " + (tail + more) + ""
    ensures name + " " + arg + " " + tail + "" + more == name + " " + arg + " " + tail + more
  {
  }

  lemma TailRead(c: FullCommand, l: string, tail: string)
    requires c.status == INVALID && TailOf(c, l, tail, if c.receivedCR then "\r" else "")
    requires Word(c.command, MAXCOMMANDSIZE) && Word(c.arg1, MAXARGSIZE) && Word(c.arg2, MAXARGSIZE)
    ensures ReadFrom(c, true, l)
  {
  }

  lemma SoftReads(c: FullCommand, l: string, byte: char)
    requires ReadFrom(c, true, l)
    ensures var n := ScanByte(Scan(c, true), byte);
            Parsed(n.cmd) || Hard(n.cmd, n.soft) || ReadFrom(n.cmd, n.soft, l + [byte])
  {
    hide Lookup, SoftLineOf, Unspaced, Word, TailOf;
    var n := ScanByte(Scan(c, true), byte);
    if !c.receivedCR {
      var tail :| TailOf(c, l, tail, "");
      if byte == '\r' {
        CrText(c, l, tail);
        TailRead(n.cmd, l + [byte], tail);
      } else if Printable(byte) && (byte == ' ' || |c.arg2| < MAXARGSIZE) {
        TailGrows(c, l, tail, byte);
        if byte != ' ' {
          WordGrows(c.arg2, byte, MAXARGSIZE);
        }
        TailRead(n.cmd, l + [byte], tail + [byte]);
      }
    }
  }

  lemma CrText(c: FullCommand, l: string, tail: string)
    requires TailOf(c, l, tail, "")
    ensures TailOf(c.(receivedCR := true), l + "\r", tail, "\r")
  {
    TailText(c.command, c.arg1, tail, "\r");
  }

  lemma WritingReads(c: FullCommand, l: string, byte: char)
    requires ReadFrom(c, false, l)
    ensures var n := ScanByte(Scan(c, false), byte);
            Parsed(n.cmd) || Hard(n.cmd, n.soft) || ReadFrom(n.cmd, n.soft, l + [byte])
  {
    hide Lookup, Unspaced, Word, TailOf;
    WordNothing();
    var n := ScanByte(Scan(c, false), byte);
    if !c.receivedCR {
      if byte == ' ' {
        if c.status == WRITINGARG2 {
          ThirdSpace(c, l);
          TailRead(n.cmd, l + [byte], c.arg2 + " ");
        } else {
          SpaceText(c, l);
        }
      } else if byte == '\r' {
        ByteText(c, l, byte);
      } else if Printable(byte) && |TextIn(c, FieldOf(c.status))| < FieldOf(c.status).MaxSize() {
        WordGrows(TextIn(c, FieldOf(c.status)), byte, FieldOf(c.status).MaxSize());
        ByteText(c, l, byte);
      }
    }
  }

  lemma SpaceText(c: FullCommand, l: string)
    requires ReadFrom(c, false, l) && !c.receivedCR && c.status != WRITINGARG2
    ensures c.status == WRITINGCOMMAND ==> l + " " == c.command + " " + "" + ""
    ensures c.status == WRITINGARG1 ==> l + " " == c.command + " " + c.arg1 + " " + "" + ""
  {
  }

  lemma ByteText(c: FullCommand, l: string, byte: char)
    requires ReadFrom(c, false, l) && !c.receivedCR
    ensures c.status == WRITINGCOMMAND ==>
              l + [byte] == c.command + [byte] && l + [byte] == (c.command + [byte]) + ""
    ensures c.status == WRITINGARG1 ==>
              && l + [byte] == c.command + " " + c.arg1 + [byte]
              && l + [byte] == c.command + " " + (c.arg1 + [byte]) + ""
    ensures c.status == WRITINGARG2 ==>
              && l + [byte] == c.command + " " + c.arg1 + " " + c.arg2 + [byte]
              && l + [byte] == c.command + " " + c.arg1 + " " + (c.arg2 + [byte]) + ""
  {
  }

  lemma WordNothing()
    ensures Word("", MAXCOMMANDSIZE) && Word("", MAXARGSIZE)
  {
  }

  lemma ThirdSpace(c: FullCommand, l: string)
    requires ReadFrom(c, false, l) && c.status == WRITINGARG2 && !c.receivedCR
    ensures TailOf(c.(status := INVALID), l + " ", c.arg2 + " ", "")
  {
    UnspacedWord(c.arg2);
    UnspacedAppend(c.arg2, ' ');
    assert Unspaced(c.arg2) + "" == c.arg2;
    TailText(c.command, c.arg1, c.arg2, " ");
  }

  lemma {:induction false} UnspacedWord(w: string)
    requires ' ' !in w
    ensures Unspaced(w) == w
  {
    if w != "" {
      UnspacedWord(w[1..]);
    }
  }

  /** `l` is the text of the open line, if there is one that can still be saved. */
  ghost predicate Told(p: Parser, l: string) {
    LineOpen(p.queue) ==>
      Hard(p.queue[|p.queue| - 1], p.soft) || ReadFrom(p.queue[|p.queue| - 1], p.soft, l)
  }

  lemma StepTold(p: Parser, l: string, byte: char)
    requires Told(p, l)
    ensures Told(Step(p, byte), (if LineOpen(p.queue) then l else "") + [byte])
  {
    hide ScanByte, ReadFrom;
    if LineOpen(p.queue) {
      StepLast(p, byte);
      StepReads(p.queue[|p.queue| - 1], p.soft, l, byte);
    } else {
      NewReads(byte);
      assert "" + [byte] == [byte];
    }
  }

  /** Where the last line of the text begins. */
  lemma {:induction false} LineOfText(queue: seq<FullCommand>, s: string) returns (n: nat)
    requires !LineOpen(queue)
    ensures n <= |s| && !LineOpen(Fold(Parser(queue, false), s[..n]).queue)
    ensures Told(Fold(Parser(queue, false), s), s[n..])
    decreases |s|
  {
    hide Step, Told, LineOpen;
    if s == "" {
      n := LineOfNothing(queue);
      return;
    }
    var before, byte := s[..|s| - 1], s[|s| - 1];
    var start := Parser(queue, false);
    n := LineOfText(queue, before);
    assert before[..n] == s[..n] && s == before + [byte];
    FoldAppend(start, before, [byte]);
    FoldTwo(Fold(start, before), byte, byte);
    StepTold(Fold(start, before), before[n..], byte);
    if LineOpen(Fold(start, before).queue) {
      assert s[n..] == before[n..] + [byte];
    } else {
      n := |before|;
      assert s[..n] == before && s[n..] == "" + [byte];
    }
  }

  lemma LineOfNothing(queue: seq<FullCommand>) returns (n: nat)
    requires !LineOpen(queue)
    ensures n == 0 && !LineOpen(Fold(Parser(queue, false), ""[..n]).queue)
    ensures Told(Fold(Parser(queue, false), ""), ""[n..])
  {
    n := 0;
    assert Fold(Parser(queue, false), "") == Parser(queue, false);
  }

  lemma NewReads(byte: char)
    ensures var n := ScanByte(Scan(NEW_COMMAND, false), byte);
            Parsed(n.cmd) || Hard(n.cmd, n.soft) || ReadFrom(n.cmd, n.soft, [byte])
  {
    hide ScanByte;
    assert ReadFrom(NEW_COMMAND, false, "");
    WritingReads(NEW_COMMAND, "", byte);
    assert "" + [byte] == [byte];
  }

  lemma StepReads(c: FullCommand, soft: bool, l: string, byte: char)
    requires !Parsed(c) && (Hard(c, soft) || ReadFrom(c, soft, l))
    ensures var n := ScanByte(Scan(c, soft), byte);
            Parsed(n.cmd) || Hard(n.cmd, n.soft) || ReadFrom(n.cmd, n.soft, l + [byte])
  {
    if ReadFrom(c, soft, l) {
      hide ScanByte, ReadFrom;
      if soft {
        SoftReads(c, l, byte);
      } else {
        WritingReads(c, l, byte);
      }
    }
  }

  /** The parser is between two lines after the first `n` bytes, and the rest is a line that a cut would spoil. */
  ghost predicate EndsSoftly(queue: seq<FullCommand>, s: string, n: nat) {
    n <= |s| && !LineOpen(Fold(Parser(queue, false), s[..n]).queue) && SoftLine(s[n..])
  }

  /** A cut goes unnoticed by everything that can follow it exactly when the last line of the text in front of it is
      not one of three fields within their limits with three spaces or more, all of it printable, and perhaps a CR. */
  lemma CutHarmlessText(queue: seq<FullCommand>, s: string)
    requires NoNul(s) && !LineOpen(queue)
    ensures CutHarmless(queue, s) <==> !exists n: nat :: EndsSoftly(queue, s, n)
  {
    hide ReadFrom, CutHarmless, Step;
    CutHarmlessExactly(queue, s);
    var start := Parser(queue, false);
    FoldSoftOk(start, s);
    var n := LineOfText(queue, s);
    if Fold(start, s).soft {
      SoftIsSoftLine(Fold(start, s), s[n..]);
      assert EndsSoftly(queue, s, n);
    }
    if m: nat :| EndsSoftly(queue, s, m) {
      var name, arg, tail, cr :| SoftLineOf(s[m..], name, arg, tail, cr);
      FoldSoftOk(start, s[..m]);
      SoftLineRun(Fold(start, s[..m]).queue, s[m..], name, arg, tail, cr);
      FoldAppend(start, s[..m], s[m..]);
      assert s[..m] + s[m..] == s;
    }
  }

  lemma SoftIsSoftLine(p: Parser, l: string)
    requires LineOpen(p.queue) && p.soft && Told(p, l)
    ensures SoftLine(l)
  {
    var c := p.queue[|p.queue| - 1];
    var tail :| TailOf(c, l, tail, if c.receivedCR then "\r" else "");
  }
}
