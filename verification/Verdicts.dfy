/** What the server makes of any line that arrives whole: exactly which lines are commands, and with which arguments. */
module Verdicts {
  import opened Text
  import opened Commands
  import opened Parsing
  import opened Fragmentation
  import opened Readers

  function NameIn(l: string): string {
    Before(l, ' ')
  }

  function ArgIn(l: string): string {
    Before(Behind(l, ' '), ' ')
  }

  function TailIn(l: string): string {
    Behind(Behind(l, ' '), ' ')
  }

  /** Printable text with a name of at most 4 characters, an argument of at most 40, and behind it at most 40 that are
      not spaces. */
  predicate Fits(l: string) {
    && (forall i | 0 <= i < |l| :: ' ' <= l[i] <= '~')
    && |NameIn(l)| <= 4 && |ArgIn(l)| <= 40 && |Unspaced(TailIn(l))| <= 40
  }

  /** A line without its end. */
  predicate IsText(l: string) {
    forall i | 0 <= i < |l| :: l[i] != '\r' && l[i] != '\n' && l[i] != '\0'
  }

  // ---------- one more byte ----------

  lemma {:induction false} BeforeSnoc(t: string, b: char, c: char)
    ensures Before(t + [b], c) == if c in t then Before(t, c) else if b == c then t else t + [b]
    ensures c !in t ==> Before(t, c) == t
    ensures Behind(t + [b], c) == if c in t then Behind(t, c) + [b] else ""
    ensures c !in t ==> Behind(t, c) == ""
  {
    if t == "" {
      assert (t + [b])[1..] == "";
    } else {
      assert (t + [b])[0] == t[0] && (t + [b])[1..] == t[1..] + [b];
      BeforeSnoc(t[1..], b, c);
    }
  }

  lemma FitsMonotone(t: string, b: char)
    requires Fits(t + [b])
    ensures Fits(t)
  {
    hide Before, Behind, Unspaced;
    BeforeSnoc(t, b, ' ');
    BeforeSnoc(Behind(t, ' '), b, ' ');
    UnspacedAppend(TailIn(t), b);
    assert forall i | 0 <= i < |t| :: t[i] == (t + [b])[i];
    NothingBehind(t);
  }

  lemma NothingBehind(t: string)
    ensures ' ' !in t ==> ArgIn(t) == "" && TailIn(t) == ""
    ensures ' ' !in Behind(t, ' ') ==> TailIn(t) == ""
    ensures Unspaced("") == ""
  {
    BeforeSnoc(t, ' ', ' ');
    BeforeSnoc(Behind(t, ' '), ' ', ' ');
  }

  // ---------- a line that is being read ----------

  lemma Split1(name: string)
    requires ' ' !in name
    ensures NameIn(name) == name && ArgIn(name) == "" && TailIn(name) == ""
  {
    BeforeSnoc(name, ' ', ' ');
  }

  lemma Split2(name: string, arg: string)
    requires ' ' !in name && ' ' !in arg
    ensures var l := name + " " + arg;
            NameIn(l) == name && ArgIn(l) == arg && TailIn(l) == ""
  {
    Cut(name, ' ', arg);
    BeforeSnoc(arg, ' ', ' ');
    assert name + " " + arg == name + [' '] + arg;
  }

  lemma Split3(name: string, arg: string, tail: string)
    requires ' ' !in name && ' ' !in arg
    ensures var l := name + " " + arg + " " + tail;
            NameIn(l) == name && ArgIn(l) == arg && TailIn(l) == tail
  {
    Cut(name, ' ', arg + [' '] + tail);
    Cut(arg, ' ', tail);
    assert name + " " + arg + " " + tail == name + [' '] + (arg + [' '] + tail);
  }

  lemma WordIs(w: string, n: nat)
    requires Word(w, n)
    ensures ' ' !in w && forall i | 0 <= i < |w| :: ' ' <= w[i] <= '~'
  {
  }

  /** The fields of a line that is read well are the words of its text, and they fit. */
  lemma ReadWords(c: FullCommand, soft: bool, l: string)
    requires ReadFrom(c, soft, l) && !c.receivedCR
    ensures Fits(l) && c.command == NameIn(l) && c.arg1 == ArgIn(l) && c.arg2 == Unspaced(TailIn(l))
  {
    hide NameIn, ArgIn, TailIn, Word, Unspaced;
    WordIs(c.command, MAXCOMMANDSIZE);
    WordIs(c.arg1, MAXARGSIZE);
    WordIs(c.arg2, MAXARGSIZE);
    WordLengths(c);
    match c.status {
      case WRITINGCOMMAND =>
        Split1(c.command);
        assert c.command + "" == c.command;
      case WRITINGARG1 =>
        Split2(c.command, c.arg1);
        assert l == c.command + " " + c.arg1;
      case WRITINGARG2 =>
        Split3(c.command, c.arg1, c.arg2);
        assert l == c.command + " " + c.arg1 + " " + c.arg2;
        UnspacedWord(c.arg2);
      case INVALID =>
        var tail :| TailOf(c, l, tail, "");
        Split3(c.command, c.arg1, tail);
        assert l == c.command + " " + c.arg1 + " " + tail;
        PrintableTail(tail);
    }
    UnspacedNothing();
  }

  lemma UnspacedNothing()
    ensures Unspaced("") == ""
  {
  }

  lemma PrintableTail(tail: string)
    requires AllPrintable(tail)
    ensures forall i | 0 <= i < |tail| :: ' ' <= tail[i] <= '~'
  {
  }

  lemma WordLengths(c: FullCommand)
    requires Word(c.command, MAXCOMMANDSIZE) && Word(c.arg1, MAXARGSIZE) && Word(c.arg2, MAXARGSIZE)
    ensures |c.command| <= 4 && |c.arg1| <= 40 && |c.arg2| <= 40
  {
  }

  /** A byte that spoils the line is one that does not fit. */
  lemma SpoiltDoesNotFit(c: FullCommand, soft: bool, l: string, b: char)
    requires ReadFrom(c, soft, l) && !c.receivedCR && b != '\r'
    requires var n := ScanByte(Scan(c, soft), b); Hard(n.cmd, n.soft)
    ensures !Fits(l + [b])
  {
    hide Lookup, ReadFrom, Unspaced, NameIn, ArgIn, TailIn;
    assert (l + [b])[|l|] == b;
    SpaceSpoilsNothing(c, soft, l);
    if ' ' < b <= '~' {
      ReadWords(c, soft, l);
      BufferFull(c, soft, l, b);
      SpoiltWords(c, soft, l, b);
    }
  }

  lemma SpaceSpoilsNothing(c: FullCommand, soft: bool, l: string)
    requires ReadFrom(c, soft, l) && !c.receivedCR
    ensures var n := ScanByte(Scan(c, soft), ' '); !Hard(n.cmd, n.soft)
  {
    hide Lookup, Word;
  }

  lemma BufferFull(c: FullCommand, soft: bool, l: string, b: char)
    requires ReadFrom(c, soft, l) && !c.receivedCR && ' ' < b <= '~'
    requires var n := ScanByte(Scan(c, soft), b); Hard(n.cmd, n.soft)
    ensures |TextIn(c, FieldOf(c.status))| >= FieldOf(c.status).MaxSize()
  {
    hide Lookup, Word;
  }

  lemma SpoiltWords(c: FullCommand, soft: bool, l: string, b: char)
    requires ReadFrom(c, soft, l) && !c.receivedCR && ' ' < b <= '~'
    requires |TextIn(c, FieldOf(c.status))| >= FieldOf(c.status).MaxSize()
    ensures |NameIn(l + [b])| > 4 || |ArgIn(l + [b])| > 40 || |Unspaced(TailIn(l + [b]))| > 40
  {
    hide NameIn, ArgIn, TailIn, Word, Unspaced;
    WordIs(c.command, MAXCOMMANDSIZE);
    WordIs(c.arg1, MAXARGSIZE);
    WordIs(c.arg2, MAXARGSIZE);
    ByteAtEnd(c.command, b);
    ByteAtEnd(c.arg1, b);
    match c.status {
      case WRITINGCOMMAND =>
        Split1(c.command + [b]);
        assert l == c.command;
      case WRITINGARG1 =>
        Split2(c.command, c.arg1 + [b]);
        assert l + [b] == c.command + " " + (c.arg1 + [b]);
      case WRITINGARG2 =>
        Split3(c.command, c.arg1, c.arg2 + [b]);
        assert l + [b] == c.command + " " + c.arg1 + " " + (c.arg2 + [b]);
        UnspacedWord(c.arg2);
        UnspacedAppend(c.arg2, b);
      case INVALID =>
        var tail :| TailOf(c, l, tail, "");
        Split3(c.command, c.arg1, tail + [b]);
        assert l + [b] == c.command + " " + c.arg1 + " " + (tail + [b]);
        UnspacedAppend(tail, b);
    }
  }

  lemma ByteAtEnd(w: string, b: char)
    requires ' ' !in w && b != ' '
    ensures ' ' !in w + [b]
  {
  }

  /** The state of a line after its text: read well exactly if the text fits. */
  ghost predicate Judged(c: FullCommand, soft: bool, l: string) {
    !c.receivedCR && if Fits(l) then ReadFrom(c, soft, l) else Hard(c, soft)
  }

  lemma OneMoreByte(c: FullCommand, soft: bool, l: string, b: char)
    requires Judged(c, soft, l) && b != '\r' && b != '\n' && b != '\0'
    ensures var n := ScanByte(Scan(c, soft), b);
            Judged(n.cmd, n.soft, l + [b]) && !Parsed(n.cmd)
  {
    hide ReadFrom, Fits, Lookup;
    var n := ScanByte(Scan(c, soft), b);
    if Fits(l + [b]) {
      FitsMonotone(l, b);
    }
    if Fits(l) {
      ReadIsOpen(c, soft, l);
      StepReads(c, soft, l, b);
      StaysOpen(c, soft, b);
      if Hard(n.cmd, n.soft) {
        SpoiltDoesNotFit(c, soft, l, b);
      } else {
        ReadWords(n.cmd, n.soft, l + [b]);
      }
    }
  }

  lemma ReadIsOpen(c: FullCommand, soft: bool, l: string)
    requires ReadFrom(c, soft, l)
    ensures !Parsed(c)
  {
  }

  lemma StaysOpen(c: FullCommand, soft: bool, b: char)
    requires !Parsed(c) && !c.receivedCR && b != '\r' && b != '\n'
    ensures var n := ScanByte(Scan(c, soft), b).cmd;
            !Parsed(n) && !n.receivedCR
  {
    hide Lookup;
  }

  // ---------- the whole line ----------

  lemma {:induction false} TextJudged(done: seq<FullCommand>, l: string)
    requires IsText(l)
    ensures var p := Fold(Middle(done, NEW_COMMAND), l);
            && |p.queue| == |done| + 1 && p.queue[..|done|] == done && LineOpen(p.queue)
            && Judged(p.queue[|done|], p.soft, l)
    decreases |l|
  {
    hide ReadFrom, Fits, ScanByte, Judged;
    if l == "" {
      NothingJudged();
    } else {
      var t, b := l[..|l| - 1], l[|l| - 1];
      assert l == t + [b];
      TextJudged(done, t);
      var p := Fold(Middle(done, NEW_COMMAND), t);
      FoldAppend(Middle(done, NEW_COMMAND), t, [b]);
      FoldTwo(p, b, b);
      OneMoreByte(p.queue[|done|], p.soft, t, b);
      StepLast(p, b);
      StepKeeps(p, b);
    }
  }

  lemma StepKeeps(p: Parser, b: char)
    requires LineOpen(p.queue)
    ensures Step(p, b).queue[..|p.queue| - 1] == p.queue[..|p.queue| - 1]
  {
    hide ScanByte;
  }

  lemma NothingJudged()
    ensures Judged(NEW_COMMAND, false, "")
  {
  }

  lemma LineEnded(p: Parser, l: string)
    requires LineOpen(p.queue) && Judged(p.queue[|p.queue| - 1], p.soft, l)
    ensures var q := Fold(p, "\r\n").queue;
            var c := p.queue[|p.queue| - 1];
            && |q| == |p.queue| && q[..|q| - 1] == p.queue[..|q| - 1]
            && q[|q| - 1] == (if Fits(l) then Resolve(c.(receivedCR := true))
                              else c.(receivedCR := true, status := COMPLETEINVALID))
  {
    hide Lookup, Fits, Resolve, Word, TailOf;
    var p1 := Step(p, '\r');
    assert "\r\n" == ['\r', '\n'];
    FoldTwo(p, '\r', '\n');
    StepLast(p, '\r');
    StepKeeps(p, '\r');
    StepLast(p1, '\n');
    StepKeeps(p1, '\n');
  }

  /** A line that arrives whole is a command exactly when its text fits and its name is one of the ten, in any case;
      then its name and its arguments are the words of the text, the second one without the spaces in it. Any other
      line is an error. */
  lemma LineVerdict(done: seq<FullCommand>, l: string)
    requires !LineOpen(done) && IsText(l)
    ensures var q := Fold(Parser(done, false), l + "\r\n").queue;
            var verb := VerbNamed(NameIn(l));
            && |q| == |done| + 1 && q[..|done|] == done
            && if Fits(l) && verb.Some? then
                 q[|done|] == FullCommand(NameIn(l), ArgIn(l), Unspaced(TailIn(l)),
                                          Some(CommandWithState(Upper(NameIn(l)), verb.value, Needed(verb.value))),
                                          COMPLETE, true)
               else q[|done|].status == COMPLETEINVALID && q[|done|].executeCommand == None
  {
    hide ReadFrom, Fits, Step, VerbNamed, Upper, Judged, Lookup, NameIn, ArgIn, TailIn, Unspaced;
    FoldStart(done, l + "\r\n");
    FoldAppend(Middle(done, NEW_COMMAND), l, "\r\n");
    TextJudged(done, l);
    var p := Fold(Middle(done, NEW_COMMAND), l);
    LineEnded(p, l);
    var c := p.queue[|done|];
    if Fits(l) {
      JudgedWell(c, p.soft, l);
      ReadWords(c, p.soft, l);
      LookupIs(c.command);
      OpenHasNoHandler(done, l);
    } else {
      OpenHasNoHandler(done, l);
    }
  }

  lemma JudgedWell(c: FullCommand, soft: bool, l: string)
    requires Judged(c, soft, l) && Fits(l)
    ensures ReadFrom(c, soft, l) && !c.receivedCR
  {
  }

  /** A line that is not finished has no handler. */
  lemma {:induction false} OpenHasNoHandler(done: seq<FullCommand>, l: string)
    requires IsText(l)
    ensures var p := Fold(Middle(done, NEW_COMMAND), l);
            |p.queue| == |done| + 1 && p.queue[|done|].executeCommand == None
    decreases |l|
  {
    hide ScanByte, Judged;
    if l != "" {
      var t, b := l[..|l| - 1], l[|l| - 1];
      assert l == t + [b];
      OpenHasNoHandler(done, t);
      TextJudged(done, t);
      var p := Fold(Middle(done, NEW_COMMAND), t);
      FoldAppend(Middle(done, NEW_COMMAND), t, [b]);
      FoldTwo(p, b, b);
      StepLast(p, b);
      ByteKeepsHandler(p.queue[|done|], p.soft, b, t);
    }
  }

  lemma ByteKeepsHandler(c: FullCommand, soft: bool, b: char, t: string)
    requires Judged(c, soft, t) && b != '\r' && b != '\n'
    ensures ScanByte(Scan(c, soft), b).cmd.executeCommand == c.executeCommand
  {
    hide Lookup, Fits;
  }

  // ---------- lines that are not text ----------

  predicate HasCRLF(u: string) {
    exists i :: 0 <= i < |u| - 1 && u[i] == '\r' && u[i + 1] == '\n'
  }

  lemma CRLFSnoc(t: string, b: char)
    ensures HasCRLF(t + [b]) <==> HasCRLF(t) || (t != "" && t[|t| - 1] == '\r' && b == '\n')
  {
    var u := t + [b];
    if i :| 0 <= i < |u| - 1 && u[i] == '\r' && u[i + 1] == '\n' {
      if i < |t| - 1 {
        assert t[i] == u[i] && t[i + 1] == u[i + 1];
      } else {
        assert u[i + 1] == b && u[i] == t[|t| - 1];
      }
    }
    if i :| 0 <= i < |t| - 1 && t[i] == '\r' && t[i + 1] == '\n' {
      assert u[i] == t[i] && u[i + 1] == t[i + 1];
    }
    if t != "" && t[|t| - 1] == '\r' && b == '\n' {
      assert u[|t| - 1] == '\r' && u[|t|] == '\n';
    }
  }

  /** A line that is past saving goes on exactly until the first CRLF. */
  lemma {:induction false} DiscardedUpToCRLF(done: seq<FullCommand>, c: FullCommand, u: string)
    requires Hard(c, false) && !c.receivedCR && !HasCRLF(u)
    ensures var last := u != "" && u[|u| - 1] == '\r';
            && Fold(Middle(done, c), u) == Middle(done, c.(receivedCR := last))
            && Fold(Middle(done, c), u + "\n").queue ==
               done + [if last then c.(receivedCR := true, status := COMPLETEINVALID) else c]
    decreases |u|
  {
    hide ScanByte, Fold;
    if u == "" {
      FoldNothing(Middle(done, c));
    } else {
      var t, b := u[..|u| - 1], u[|u| - 1];
      assert u == t + [b];
      CRLFSnoc(t, b);
      DiscardedUpToCRLF(done, c, t);
      var c' := c.(receivedCR := t != "" && t[|t| - 1] == '\r');
      FoldAppend(Middle(done, c), t, [b]);
      FoldTwo(Middle(done, c'), b, b);
      DiscardStep(done, c', b);
    }
    var c'' := c.(receivedCR := u != "" && u[|u| - 1] == '\r');
    FoldAppend(Middle(done, c), u, "\n");
    FoldTwo(Middle(done, c''), '\n', '\n');
    DiscardStep(done, c'', '\n');
  }

  lemma FoldNothing(p: Parser)
    ensures Fold(p, "") == p
  {
  }

  lemma DiscardStep(done: seq<FullCommand>, c: FullCommand, b: char)
    requires Hard(c, false)
    ensures Step(Middle(done, c), b) ==
            Middle(done, if b == '\n' && c.receivedCR then c.(status := COMPLETEINVALID)
              else c.(receivedCR := b == '\r'))
  {
    hide Lookup;
    var p := Middle(done, c);
    assert p.queue[|p.queue| - 1] == c && p.queue[..|p.queue| - 1] == done;
  }

  /** A CR that no LF follows ends the reading of a good line but is remembered: the LF behind the next byte then ends
      the line. In a line that is past saving already it does not. */
  lemma LoneCRExactly(done: seq<FullCommand>, l: string, b: char)
    requires !LineOpen(done) && IsText(l) && b != '\r' && b != '\n' && b != '\0'
    ensures var q := Fold(Parser(done, false), l + ['\r', b] + "\n").queue;
            && |q| == |done| + 1 && q[..|done|] == done
            && q[|done|].status == (if Fits(l) then COMPLETEINVALID else INVALID)
  {
    hide ReadFrom, Fits, Step, Judged, Lookup;
    var all := l + ['\r', b] + "\n";
    FoldStart(done, all);
    TextJudged(done, l);
    var p := Fold(Middle(done, NEW_COMMAND), l);
    FoldAppend(Middle(done, NEW_COMMAND), l, ['\r', b]);
    FoldAppend(Middle(done, NEW_COMMAND), l + ['\r', b], "\n");
    FoldTwo(p, '\r', b);
    var p2 := Step(Step(p, '\r'), b);
    FoldTwo(p2, '\n', '\n');
    LoneCRSteps(p, l, b);
  }

  lemma LoneCRSteps(p: Parser, l: string, b: char)
    requires LineOpen(p.queue) && Judged(p.queue[|p.queue| - 1], p.soft, l) && b != '\r' && b != '\n' && b != '\0'
    ensures var q := Step(Step(Step(p, '\r'), b), '\n').queue;
            && |q| == |p.queue| && q[..|q| - 1] == p.queue[..|q| - 1]
            && q[|q| - 1].status == (if Fits(l) then COMPLETEINVALID else INVALID)
  {
    hide Lookup, Fits, Resolve, Word, TailOf, Step;
    var p1 := Step(p, '\r');
    StepLast(p, '\r');
    StepKeeps(p, '\r');
    var p2 := Step(p1, b);
    StepLast(p1, b);
    StepKeeps(p1, b);
    StepLast(p2, '\n');
    StepKeeps(p2, '\n');
  }
}
