/** The automaton of MP3P accepts exactly the grammar, and says exactly what is wrong with anything else. */
module DatagramGrammar {
  import opened Text
  import opened Datagrams

  /** A NUL ends the text, so no part of it can run to the end. */
  predicate Terminated(t: string) {
    t != "" && t[|t| - 1] == '\0'
  }

  lemma RunAt(s: Scan, t: string, i: nat)
    requires !Stops(s.state) && i < |t|
    ensures Run(s, t[i..]) == Run(Next(s, t[i]), t[i + 1..])
  {
    hide Next;
    assert t[i..][0] == t[i] && t[i..][1..] == t[i + 1..];
    RunFirst(s, t[i..]);
  }

  // ---------- the fixed head and the version ----------

  const HEAD: string := "MP3P V"

  function HeadState(i: nat): Mp3pState
    requires i <= 6
  {
    if i == 0 then START else if i == 1 then READM else if i == 2 then READP else if i == 3 then READ3
    else if i == 4 then READSECONDP else if i == 5 then READVERSIONSEPARATOR else READVERSIONV
  }

  lemma PrefixGrows(s: string, t: string, i: nat)
    requires i < |s| && i < |t| && s[..i] == t[..i] && s[i] == t[i]
    ensures s[..i + 1] == t[..i + 1]
  {
    assert s[..i + 1] == s[..i] + [s[i]] && t[..i + 1] == t[..i] + [t[i]];
  }

  lemma {:induction false} HeadRun(s: Scan, t: string, i: nat)
    requires i <= 6 && i < |t| && s.state == HeadState(i) && t[..i] == HEAD[..i] && Terminated(t)
    ensures if HEAD <= t then Run(s, t[i..]) == Run(s.(state := READVERSIONV), t[6..])
            else Run(s, t[i..]).state == DGRAMDISCARD
    decreases 6 - i
  {
    hide Run;
    if i < 6 {
      RunAt(s, t, i);
      if t[i] == HEAD[i] {
        PrefixGrows(t, HEAD, i);
        HeadRun(s.(state := HeadState(i + 1)), t, i + 1);
      } else {
        assert !(HEAD <= t);
        RunStopped(s.(state := DGRAMDISCARD), t[i + 1..]);
      }
    } else {
      assert t[..6] == HEAD && HEAD <= t;
    }
  }

  /** The rest of a version after its first digit: more digits, a dot, a digit, and the end of the line. */
  predicate IsVersionTail(v: string) {
    |v| >= 3 && v[|v| - 1] == '\n' && IsDigit(v[|v| - 2]) && v[|v| - 3] == '.'
      && forall i | 0 <= i < |v| - 3 :: IsDigit(v[i])
  }

  lemma {:induction false} VersionRun(s: Scan, t: string, i: nat) returns (ok: bool, j: nat)
    requires s.state == READVERSIONNUM && i < |t| && Terminated(t)
    ensures if ok then
              && i <= j < |t| && IsVersionTail(t[i..j])
              && Run(s, t[i..]) == Run(s.(state := READFIRSTNEWLINE), t[j..])
            else Run(s, t[i..]).state == DGRAMDISCARD
    decreases |t| - i
  {
    hide Run;
    RunAt(s, t, i);
    if IsDigit(t[i]) {
      ok, j := VersionRun(s, t, i + 1);
      if ok {
        assert t[i..j] == [t[i]] + t[i + 1..j];
      }
    } else if t[i] == '.' {
      ok, j := VersionEndRun(s.(state := READVERSIONDOT), t, i);
    } else {
      ok, j := false, 0;
      RunStopped(s.(state := DGRAMDISCARD), t[i + 1..]);
    }
  }

  lemma VersionEndRun(s: Scan, t: string, i: nat) returns (ok: bool, j: nat)
    requires s.state == READVERSIONDOT && i < |t| && t[i] == '.' && Terminated(t)
    ensures if ok then
              && j == i + 3 < |t| && IsVersionTail(t[i..j])
              && Run(s, t[i + 1..]) == Run(s.(state := READFIRSTNEWLINE), t[j..])
            else Run(s, t[i + 1..]).state == DGRAMDISCARD
  {
    hide Run;
    ok, j := false, i + 3;
    var failed := s.(state := DGRAMDISCARD);
    RunAt(s, t, i + 1);
    if !IsDigit(t[i + 1]) {
      RunStopped(failed, t[i + 2..]);
      return;
    }
    var s2 := s.(state := READVERSIONSUBNUM);
    RunAt(s2, t, i + 2);
    if t[i + 2] != '\n' {
      RunStopped(failed, t[i + 3..]);
      return;
    }
    ok := true;
  }

  // ---------- the two tokens ----------

  function TokenState(key: bool): Mp3pState {
    if key then READCLIENTPASSWORD else READCLIENTDGRAMID
  }

  function TokenError(key: bool): Mp3pState {
    if key then DGRAMBADAUTH else DGRAMDISCARD
  }

  function TokenCount(s: Scan, key: bool): nat {
    if key then s.keyLength else s.idLength
  }

  function Counted(s: Scan, key: bool, n: nat, state: Mp3pState): Scan {
    if key then s.(keyLength := n, state := state) else s.(idLength := n, state := state)
  }

  predicate TokenLine(t: string) {
    |t| > IDLENGTH && IsToken(t[..IDLENGTH]) && t[IDLENGTH] == '\n'
  }

  /** What remains of a token of which `n` characters were read. */
  predicate TokenRest(t: string, n: nat) {
    n <= IDLENGTH && |t| > IDLENGTH - n && t[IDLENGTH - n] == '\n' && forall i | 0 <= i < IDLENGTH - n :: IsAlnum(t[i])
  }

  lemma TokenNext(s: Scan, c: char, key: bool)
    requires s.state == TokenState(key) && TokenCount(s, key) <= IDLENGTH
    ensures !Stops(s.state) && Stops(TokenError(key))
    ensures Next(s, c) ==
            if c == '\n' && TokenCount(s, key) == IDLENGTH then
              s.(state := if key then READTHIRDNEWLINE else READSECONDNEWLINE)
            else if TokenCount(s, key) < IDLENGTH && IsAlnum(c) then Counted(s, key, TokenCount(s, key) + 1, s.state)
            else s.(state := TokenError(key))
  {
    hide NextCommand;
  }

  lemma {:induction false} TokenRun(s: Scan, t: string, i: nat, key: bool)
    requires s.state == TokenState(key) && i < |t| && TokenCount(s, key) <= IDLENGTH && Terminated(t)
    ensures var n := TokenCount(s, key);
            if TokenRest(t[i..], n) then
              Run(s, t[i..]) == Run(Counted(s, key, IDLENGTH, if key then READTHIRDNEWLINE else READSECONDNEWLINE),
                                    t[i + IDLENGTH - n + 1..])
            else Run(s, t[i..]).state == TokenError(key)
    decreases |t| - i
  {
    hide Run, Next, Stops;
    var n := TokenCount(s, key);
    var u := t[i..];
    TokenNext(s, t[i], key);
    RunAt(s, t, i);
    if n < IDLENGTH && IsAlnum(t[i]) {
      assert i + 1 < |t|;
      var s1 := Counted(s, key, n + 1, s.state);
      TokenRun(s1, t, i + 1, key);
      TokenRestStep(u, n);
      assert u[1..] == t[i + 1..];
    } else if n == IDLENGTH && t[i] == '\n' {
      assert TokenRest(u, n);
    } else {
      assert !TokenRest(u, n) by {
        assert u[0] == t[i];
      }
      RunStopped(s.(state := TokenError(key)), t[i + 1..]);
    }
  }

  lemma TokenRestStep(u: string, n: nat)
    requires n < IDLENGTH && u != "" && IsAlnum(u[0])
    ensures TokenRest(u, n) <==> TokenRest(u[1..], n + 1)
  {
    if TokenRest(u[1..], n + 1) {
      assert forall i | 1 <= i < IDLENGTH - n :: u[i] == u[1..][i - 1];
      assert u[IDLENGTH - n] == u[1..][IDLENGTH - n - 1];
    }
    if TokenRest(u, n) {
      assert forall i | 0 <= i < IDLENGTH - n - 1 :: u[1..][i] == u[i + 1];
    }
  }

  lemma TokenStarts(s: Scan, c: char, key: bool)
    requires s.state == (if key then READSECONDNEWLINE else READFIRSTNEWLINE) && TokenCount(s, key) == 0
    ensures !Stops(s.state) && Stops(TokenError(key))
    ensures Next(s, c) == if IsAlnum(c) then Counted(s, key, 1, TokenState(key)) else s.(state := TokenError(key))
  {
    hide NextCommand;
  }

  lemma LineIsRest(u: string)
    ensures TokenLine(u) <==> TokenRest(u, 0)
  {
    if TokenLine(u) {
      assert forall i | 0 <= i < IDLENGTH :: u[i] == u[..IDLENGTH][i];
    }
    if TokenRest(u, 0) {
      assert forall i | 0 <= i < IDLENGTH :: IsAlnum(u[i]) && u[..IDLENGTH][i] == u[i];
    }
  }

  /** From the end of the line before: the first character of a token starts it. */
  lemma TokenLineRun(s: Scan, t: string, i: nat, key: bool)
    requires s.state == (if key then READSECONDNEWLINE else READFIRSTNEWLINE) && i < |t| && Terminated(t)
    requires TokenCount(s, key) == 0
    ensures if TokenLine(t[i..]) then
              Run(s, t[i..]) == Run(Counted(s, key, IDLENGTH, if key then READTHIRDNEWLINE else READSECONDNEWLINE),
                                    t[i + IDLENGTH + 1..])
            else Run(s, t[i..]).state == TokenError(key)
  {
    hide Run, Next, Stops;
    var u := t[i..];
    TokenStarts(s, t[i], key);
    RunAt(s, t, i);
    LineIsRest(u);
    if IsAlnum(t[i]) {
      TokenRun(Counted(s, key, 1, TokenState(key)), t, i + 1, key);
      TokenRestStep(u, 0);
      assert u[1..] == t[i + 1..];
    } else {
      assert u[0] == t[i];
      RunStopped(s.(state := TokenError(key)), t[i + 1..]);
    }
  }

  // ---------- header, id and key together ----------

  function PrintHead(version: string, id: string): string {
    "MP3P " + version + "\n" + id + "\n"
  }

  predicate HeadOk(version: string, id: string) {
    IsVersion(version) && IsToken(id)
  }

  /** Version line and id line, found in the text or refused. */
  lemma HeadParts(t: string, left: Mp3pState) returns (ok: bool, version: string, id: string, rest: string)
    requires Terminated(t)
    ensures if ok then
              && HeadOk(version, id) && t == PrintHead(version, id) + rest && Terminated(rest)
              && Run(Scan(START, 0, 0, left), t) == Run(Scan(READSECONDNEWLINE, IDLENGTH, 0, left), rest)
            else Run(Scan(START, 0, 0, left), t).state == DGRAMDISCARD
  {
    hide Run;
    ok, version, id, rest := false, "", "", "";
    assert t[0..] == t;
    HeadRun(Scan(START, 0, 0, left), t, 0);
    if !(HEAD <= t) {
      return;
    }
    assert t[..6] == HEAD && |t| > 6;
    var s := Scan(READVERSIONV, 0, 0, left);
    RunAt(s, t, 6);
    if !IsDigit(t[6]) {
      RunStopped(s.(state := DGRAMDISCARD), t[7..]);
      return;
    }
    var j: nat;
    ok, j := VersionRun(s.(state := READVERSIONNUM), t, 7);
    if !ok {
      return;
    }
    TokenLineRun(s.(state := READFIRSTNEWLINE), t, j, false);
    if !TokenLine(t[j..]) {
      ok := false;
      return;
    }
    version, id, rest := t[5..j - 1], t[j..j + IDLENGTH], t[j + IDLENGTH + 1..];
    HeadText(t, j);
  }

  lemma HeadText(t: string, j: nat)
    requires 7 <= j < |t| && HEAD <= t && IsDigit(t[6]) && IsVersionTail(t[7..j]) && TokenLine(t[j..]) && Terminated(t)
    ensures var version, id, rest := t[5..j - 1], t[j..j + IDLENGTH], t[j + IDLENGTH + 1..];
            HeadOk(version, id) && t == PrintHead(version, id) + rest && Terminated(rest)
  {
    hide IsVersion, IsVersionTail, IsDigit, IsToken;
    var version, id, rest := t[5..j - 1], t[j..j + IDLENGTH], t[j + IDLENGTH + 1..];
    VersionText(t, j);
    assert t[j..][..IDLENGTH] == id && t[j..][IDLENGTH] == t[j + IDLENGTH];
    assert t[..6] == HEAD && t[..5] == HEAD[..5] == "MP3P ";
    assert t == t[..5] + version + [t[j - 1]] + id + [t[j + IDLENGTH]] + rest;
    assert t[|t| - 1] == '\0';
  }

  lemma VersionText(t: string, j: nat)
    requires 7 <= j <= |t| && HEAD <= t && IsDigit(t[6]) && IsVersionTail(t[7..j])
    ensures IsVersion(t[5..j - 1]) && t[j - 1] == '\n'
  {
    var version := t[5..j - 1];
    var tail := t[7..j];
    assert t[5] == HEAD[5];
    assert forall k | 0 <= k < |tail| - 1 :: tail[k] == version[k + 2];
    assert version[0] == t[5] && version[1] == t[6];
    assert version[|version| - 2] == tail[|tail| - 3] && version[|version| - 1] == tail[|tail| - 2];
    assert forall k | 2 <= k < |version| - 2 :: version[k] == tail[k - 2];
    assert t[j - 1] == tail[|tail| - 1] == '\n';
  }

  /** The other direction: a printed head is read. */
  lemma HeadReads(version: string, id: string, rest: string, left: Mp3pState)
    requires HeadOk(version, id) && Terminated(rest)
    ensures Run(Scan(START, 0, 0, left), PrintHead(version, id) + rest) ==
            Run(Scan(READSECONDNEWLINE, IDLENGTH, 0, left), rest)
  {
    hide Run, HeadOk, PrintHead;
    var t := PrintHead(version, id) + rest;
    var v := 5 + |version|;
    PrintedHeadAt(version, id, rest);
    assert t[0..] == t;
    HeadRun(Scan(START, 0, 0, left), t, 0);
    VersionReads(t, v, left);
    TokenLineRun(Scan(READFIRSTNEWLINE, 0, 0, left), t, v + 1, false);
  }

  /** The steps of a version that is well-formed. */
  lemma VersionNext(s: Scan, c: char)
    ensures s.state == READVERSIONV && IsDigit(c) ==> !Stops(s.state) && Next(s, c) == s.(state := READVERSIONNUM)
    ensures s.state == READVERSIONNUM && c == '.' ==> !Stops(s.state) && Next(s, c) == s.(state := READVERSIONDOT)
    ensures s.state == READVERSIONDOT && IsDigit(c) ==> !Stops(s.state) && Next(s, c) == s.(state := READVERSIONSUBNUM)
    ensures s.state == READVERSIONSUBNUM && c == '\n' ==> !Stops(s.state) && Next(s, c) == s.(state := READFIRSTNEWLINE)
  {
    hide NextCommand;
  }

  lemma VersionReads(t: string, v: nat, left: Mp3pState)
    requires 9 <= v < |t| && IsDigit(t[6]) && (forall k | 7 <= k < v - 2 :: IsDigit(t[k]))
    requires t[v - 2] == '.' && IsDigit(t[v - 1]) && t[v] == '\n'
    ensures Run(Scan(READVERSIONV, 0, 0, left), t[6..]) == Run(Scan(READFIRSTNEWLINE, 0, 0, left), t[v + 1..])
  {
    hide Run, Next, Stops;
    VersionNext(Scan(READVERSIONV, 0, 0, left), t[6]);
    VersionNext(Scan(READVERSIONNUM, 0, 0, left), t[v - 2]);
    VersionNext(Scan(READVERSIONDOT, 0, 0, left), t[v - 1]);
    VersionNext(Scan(READVERSIONSUBNUM, 0, 0, left), t[v]);
    RunAt(Scan(READVERSIONV, 0, 0, left), t, 6);
    DigitsRead(Scan(READVERSIONNUM, 0, 0, left), t, 7, v - 2);
    RunAt(Scan(READVERSIONNUM, 0, 0, left), t, v - 2);
    RunAt(Scan(READVERSIONDOT, 0, 0, left), t, v - 1);
    RunAt(Scan(READVERSIONSUBNUM, 0, 0, left), t, v);
  }

  lemma PrintedHeadAt(version: string, id: string, rest: string)
    requires HeadOk(version, id) && Terminated(rest)
    ensures var t, v := PrintHead(version, id) + rest, 5 + |version|;
            && v >= 9 && |t| == v + 1 + IDLENGTH + 1 + |rest| && Terminated(t) && HEAD <= t && IsDigit(t[6])
            && (forall k | 7 <= k < v - 2 :: IsDigit(t[k])) && t[v - 2] == '.' && IsDigit(t[v - 1]) && t[v] == '\n'
            && TokenLine(t[v + 1..]) && t[v + 1 + IDLENGTH + 1..] == rest
  {
    var t, v := PrintHead(version, id) + rest, 5 + |version|;
    assert forall k | 0 <= k < |version| :: t[5 + k] == version[k];
    assert t[..5] == "MP3P " && HEAD == "MP3P " + "V";
    assert t[5] == 'V' && t[..6] == t[..5] + [t[5]];
    var u := t[v + 1..];
    assert u == id + "\n" + rest && u[..IDLENGTH] == id;
    assert t[|t| - 1] == rest[|rest| - 1];
  }

  lemma {:induction false} DigitsRead(s: Scan, t: string, i: nat, j: nat)
    requires s.state == READVERSIONNUM && i <= j <= |t| && forall k | i <= k < j :: IsDigit(t[k])
    ensures Run(s, t[i..]) == Run(s, t[j..])
    decreases j - i
  {
    hide Run;
    if i < j {
      RunAt(s, t, i);
      DigitsRead(s, t, i + 1, j);
    }
  }

  /** Does `rest` begin with a well-formed key line? */
  lemma KeyParts(rest: string, left: Mp3pState)
    requires Terminated(rest)
    ensures if TokenLine(rest) then
              Run(Scan(READSECONDNEWLINE, IDLENGTH, 0, left), rest) ==
              Run(Scan(READTHIRDNEWLINE, IDLENGTH, IDLENGTH, left), rest[IDLENGTH + 1..])
            else Run(Scan(READSECONDNEWLINE, IDLENGTH, 0, left), rest).state == DGRAMBADAUTH
  {
    hide Run;
    assert rest[0..] == rest;
    TokenLineRun(Scan(READSECONDNEWLINE, IDLENGTH, 0, left), rest, 0, true);
  }

  // ---------- the command ----------

  /** How many bytes of a word the text has from `i` on. */
  function WordEnd(t: string, i: nat): (j: nat)
    requires i < |t| && Terminated(t)
    ensures i <= j < |t| && !IsWordByte(t[j]) && forall k | i <= k < j :: IsWordByte(t[k])
    decreases |t| - i
  {
    if IsWordByte(t[i]) then WordEnd(t, i + 1) else i
  }

  lemma {:induction false} WordRun(s: Scan, t: string, i: nat)
    requires s.state in {READINGUSER, READINGONLYUSER, READINGPASSWORD} && i < |t| && Terminated(t)
    ensures Run(s, t[i..]) == Run(s, t[WordEnd(t, i)..])
    decreases |t| - i
  {
    hide Run;
    if IsWordByte(t[i]) {
      RunAt(s, t, i);
      WordRun(s, t, i + 1);
    }
  }

  /** The steps of an argument: its first byte, and the byte that ends it. */
  lemma ArgumentNext(s: Scan, c: char, stop: char, next: Mp3pState, reading: Mp3pState)
    requires (s.state == READONEARGSEPARATOR && reading == READINGONLYUSER && stop == '\0' && next == s.onSuccess)
          || (s.state == READFIRSTARGSEPARATOR && reading == READINGUSER && stop == ' '
            && next == READSECONDARGSEPARATOR)
          || (s.state == READSECONDARGSEPARATOR && reading == READINGPASSWORD && stop == '\0' && next == s.onSuccess)
    ensures !Stops(s.state) && !Stops(reading) && Stops(DGRAM_INVALID_COMMAND)
    ensures Next(s, c) == s.(state := if IsWordByte(c) then reading else DGRAM_INVALID_COMMAND)
    ensures !IsWordByte(c) ==> Next(s.(state := reading), c) == s.(state := if c == stop then next
            else DGRAM_INVALID_COMMAND)
  {
    hide NextHeader;
  }

  /** A word up to `stop`, found from `i` on or refused. */
  lemma ArgumentRun(s: Scan, t: string, i: nat, stop: char, next: Mp3pState, reading: Mp3pState)
    returns (ok: bool, j: nat)
    requires i < |t| && Terminated(t)
    requires (s.state == READONEARGSEPARATOR && reading == READINGONLYUSER && stop == '\0' && next == s.onSuccess)
          || (s.state == READFIRSTARGSEPARATOR && reading == READINGUSER && stop == ' '
            && next == READSECONDARGSEPARATOR)
          || (s.state == READSECONDARGSEPARATOR && reading == READINGPASSWORD && stop == '\0' && next == s.onSuccess)
    requires !Stops(next)
    ensures ok ==>
              && i < j < |t| && IsWord(t[i..j]) && t[j] == stop
              && Run(s, t[i..]) == Run(s.(state := next), t[j + 1..])
    ensures !ok ==> Run(s, t[i..]).state == DGRAM_INVALID_COMMAND
    ensures ok <==> IsWordByte(t[i]) && t[WordEnd(t, i)] == stop
    ensures ok ==> j == WordEnd(t, i)
  {
    hide Run, Next, Stops;
    ok, j := false, WordEnd(t, i);
    var failed := s.(state := DGRAM_INVALID_COMMAND);
    ArgumentNext(s, t[i], stop, next, reading);
    ArgumentNext(s, t[j], stop, next, reading);
    RunAt(s, t, i);
    if !IsWordByte(t[i]) {
      RunStopped(failed, t[i + 1..]);
      return;
    }
    var s1 := s.(state := reading);
    WordRun(s1, t, i + 1);
    RunAt(s1, t, j);
    if t[j] != stop {
      RunStopped(failed, t[j + 1..]);
      return;
    }
    WordSlice(t, i, j);
    ok := true;
  }

  datatype CommandParts = Found(command: Command, rest: string) | NotFound

  /** The text is a command, a NUL and perhaps more. */
  ghost predicate CommandText(t: string, c: Command, rest: string) {
    ValidCommand(c) && t == PrintCommand(c) + "\0" + rest
  }

  /** After a complete command only the end is accepted. */
  lemma AfterCommand(s: Scan, c: Command, rest: string)
    requires s.state == Accepting(c)
    ensures Run(s, rest).state == if rest == "" then Accepting(c) else DGRAMDISCARD
  {
    hide Run, Next;
    if rest != "" {
      CompleteNext(s, c, rest[0]);
      RunFirst(s, rest);
      RunStopped(s.(state := DGRAMDISCARD), rest[1..]);
    } else {
      RunNothing(s);
    }
  }

  lemma CompleteNext(s: Scan, c: Command, b: char)
    requires s.state == Accepting(c)
    ensures !Stops(s.state) && Next(s, b) == s.(state := DGRAMDISCARD)
  {
    hide NextHeader;
  }

  lemma RunNothing(s: Scan)
    ensures Run(s, "") == s
  {
  }

  /** The plain two-letter commands, as the automaton knows them after their second letter. */
  function PlainState(c: Command): Mp3pState
    requires IsPlain(c)
  {
    match c
    case BT => READBT case BR => READBR case HC => READHC case CC => READCC case LU => READLU case LC => READLC
  }

  lemma PlainEnds(s: Scan, t: string, c: Command) returns (r: CommandParts)
    requires IsPlain(c) && s.state == PlainState(c)
    requires |t| > 2 && t[..2] == PrintCommand(c)
    ensures r.Found? ==> r.command == c && CommandText(t, c, r.rest)
                         && Run(s, t[2..]).state == (if r.rest == "" then Accepting(c) else DGRAMDISCARD)
    ensures r == NotFound ==> Run(s, t[2..]).state == DGRAM_INVALID_COMMAND
    ensures r == if t[2] == '\0' then Found(c, t[3..]) else NotFound
  {
    hide Run;
    RunAt(s, t, 2);
    if t[2] == '\0' {
      AfterCommand(s.(state := Accepting(c)), c, t[3..]);
      assert t == t[..2] + [t[2]] + t[3..];
      r := Found(c, t[3..]);
    } else {
      RunStopped(s.(state := DGRAM_INVALID_COMMAND), t[3..]);
      r := NotFound;
    }
  }

  lemma OneArgument(s: Scan, t: string) returns (r: CommandParts)
    requires s.state == READDU && s.onSuccess == DGRAM_DU_COMMAND && |t| > 2 && t[..2] == "DU" && Terminated(t)
    ensures r.Found? ==> CommandText(t, r.command, r.rest)
                         && Run(s, t[2..]).state == (if r.rest == "" then Accepting(r.command) else DGRAMDISCARD)
    ensures r == NotFound ==> Run(s, t[2..]).state == DGRAM_INVALID_COMMAND
    ensures t[2] == ' ' && IsWordByte(t[3]) && t[WordEnd(t, 3)] == '\0'
            ==> r == Found(DU(t[3..WordEnd(t, 3)]), t[WordEnd(t, 3) + 1..])
  {
    hide Run, IsWord;
    r := NotFound;
    RunAt(s, t, 2);
    if t[2] != ' ' {
      RunStopped(s.(state := DGRAM_INVALID_COMMAND), t[3..]);
      return;
    }
    var ok, j := ArgumentRun(s.(state := READONEARGSEPARATOR), t, 3, '\0', DGRAM_DU_COMMAND, READINGONLYUSER);
    if ok {
      var c, rest := DU(t[3..j]), t[j + 1..];
      AfterCommand(s.(state := DGRAM_DU_COMMAND), c, rest);
      assert t == t[..2] + [t[2]] + t[3..j] + [t[j]] + rest;
      assert "DU" + " " == "DU ";
      r := Found(c, rest);
    }
  }

  /** The places of the two words, when they are there. */
  predicate TwoWords(t: string, j: nat, k: nat)
    requires |t| > 2 && Terminated(t)
  {
    t[2] == ' ' && 3 < j && j + 1 < k < |t| && j == WordEnd(t, 3) && t[j] == ' ' && k == WordEnd(t, j + 1)
      && t[k] == '\0'
  }

  lemma TwoArgumentRun(s: Scan, t: string) returns (ok: bool, j: nat, k: nat)
    requires (s.state == READMP || s.state == READAU) && !Stops(s.onSuccess)
    requires |t| > 2 && Terminated(t)
    ensures ok ==> TwoWords(t, j, k) && Run(s, t[2..]) == Run(s.(state := s.onSuccess), t[k + 1..])
    ensures !ok ==> Run(s, t[2..]).state == DGRAM_INVALID_COMMAND
    ensures !ok ==> forall j, k :: !TwoWords(t, j, k)
  {
    hide Run, IsWord, WordEnd, IsWordByte, Stops, Next;
    ok, j, k := false, 0, 0;
    MayNext(s, t[2]);
    RunAt(s, t, 2);
    if t[2] != ' ' {
      RunStopped(s.(state := DGRAM_INVALID_COMMAND), t[3..]);
      return;
    }
    ok, j := ArgumentRun(s.(state := READFIRSTARGSEPARATOR), t, 3, ' ', READSECONDARGSEPARATOR, READINGUSER);
    if ok {
      ok, k := ArgumentRun(s.(state := READSECONDARGSEPARATOR), t, j + 1, '\0', s.onSuccess, READINGPASSWORD);
    }
  }

  lemma MayNext(s: Scan, c: char)
    requires s.state == READMP || s.state == READAU
    ensures !Stops(s.state) && !Stops(READSECONDARGSEPARATOR) && Stops(DGRAM_INVALID_COMMAND)
    ensures Next(s, c) == s.(state := if c == ' ' then READFIRSTARGSEPARATOR else DGRAM_INVALID_COMMAND)
  {
  }

  lemma TwoWordsOnce(t: string, j: nat, k: nat, i: nat, h: nat)
    requires |t| > 2 && Terminated(t) && TwoWords(t, j, k) && TwoWords(t, i, h)
    ensures i == j && h == k
  {
    hide WordEnd;
  }

  lemma TwoWordsInside(t: string, j: nat, k: nat)
    requires |t| > 2 && Terminated(t) && TwoWords(t, j, k)
    ensures 3 <= j < k < |t|
  {
  }

  function TwoArgumentCommand(t: string, j: nat, k: nat, mp: bool): Command
    requires 3 <= j < k <= |t|
  {
    if mp then MP(t[3..j], t[j + 1..k]) else AU(t[3..j], t[j + 1..k])
  }

  lemma TwoArguments(s: Scan, t: string, mp: bool) returns (r: CommandParts)
    requires s.state == (if mp then READMP else READAU)
             && s.onSuccess == (if mp then DGRAM_MP_COMMAND else DGRAM_AU_COMMAND)
    requires |t| > 2 && t[..2] == (if mp then "MP" else "AU") && Terminated(t)
    ensures r.Found? ==> CommandText(t, r.command, r.rest)
                         && Run(s, t[2..]).state == (if r.rest == "" then Accepting(r.command) else DGRAMDISCARD)
    ensures r == NotFound ==> Run(s, t[2..]).state == DGRAM_INVALID_COMMAND
    ensures forall j, k | TwoWords(t, j, k) :: r == Found(TwoArgumentCommand(t, j, k, mp), t[k + 1..])
  {
    hide Run, TwoWords, CommandText;
    r := NotFound;
    var ok, j, k := TwoArgumentRun(s, t);
    if ok {
      forall i, h | TwoWords(t, i, h)
        ensures i == j && h == k
      {
        TwoWordsOnce(t, j, k, i, h);
      }
      assert 3 <= j < k < |t| by {
        TwoWordsInside(t, j, k);
      }
      var c, rest := TwoArgumentCommand(t, j, k, mp), t[k + 1..];
      AfterCommand(s.(state := s.onSuccess), c, rest);
      TwoArgumentText(t, j, k, mp);
      r := Found(c, rest);
    }
  }

  lemma WordSlice(t: string, a: nat, b: nat)
    requires a < b <= |t| && forall k | a <= k < b :: IsWordByte(t[k])
    ensures IsWord(t[a..b])
  {
    forall i | 0 <= i < b - a
      ensures IsWordByte(t[a..b][i])
    {
      assert t[a..b][i] == t[a + i];
    }
  }

  lemma TwoArgumentText(t: string, j: nat, k: nat, mp: bool)
    requires |t| > 2 && Terminated(t) && TwoWords(t, j, k) && t[..2] == (if mp then "MP" else "AU")
    ensures CommandText(t, TwoArgumentCommand(t, j, k, mp), t[k + 1..])
  {
    WordSlice(t, 3, j);
    WordSlice(t, j + 1, k);
    assert t == t[..2] + [t[2]] + t[3..j] + [t[j]] + t[j + 1..k] + [t[k]] + t[k + 1..];
    assert t[..2] + [t[2]] == if mp then "MP " else "AU ";
  }

  /** Where the command begins. */
  function AtCommand(left: Mp3pState): Scan {
    Scan(READTHIRDNEWLINE, IDLENGTH, IDLENGTH, left)
  }

  /** Any text in the place of the command: a command and a NUL, found, or refused. */
  lemma CommandRun(t: string, left: Mp3pState) returns (r: CommandParts)
    requires Terminated(t)
    ensures r.Found? ==> CommandText(t, r.command, r.rest)
                         && Run(AtCommand(left), t).state == (if r.rest == "" then Accepting(r.command)
                           else DGRAMDISCARD)
    ensures r == NotFound ==> Run(AtCommand(left), t).state == DGRAM_INVALID_COMMAND
  {
    hide Run, CommandText, PrintCommand, Next;
    var s := AtCommand(left);
    var s1 := s.(state := FirstLetter(t[0]));
    assert t[0..] == t;
    RunAt(s, t, 0);
    FirstNext(s, t[0]);
    if Stops(s1.state) {
      RunStopped(s1, t[1..]);
      return NotFound;
    }
    var s2 := Next(s1, t[1]);
    RunAt(s1, t, 1);
    SecondNext(s1, t[0], t[1]);
    if Stops(s2.state) {
      RunStopped(s2, t[2..]);
      return NotFound;
    }
    assert t[..2] == [t[0], t[1]];
    if s2.state == READDU {
      r := OneArgument(s2, t);
    } else if s2.state == READMP {
      r := TwoArguments(s2, t, true);
    } else if s2.state == READAU {
      r := TwoArguments(s2, t, false);
    } else {
      r := PlainEnds(s2, t, PlainOf(s2.state));
    }
  }

  /** The plain command an automaton state after two letters stands for. */
  function PlainOf(state: Mp3pState): (c: Command)
    requires state in {READBT, READBR, READHC, READCC, READLU, READLC}
    ensures IsPlain(c) && PlainState(c) == state
  {
    if state == READBT then BT else if state == READBR then BR else if state == READHC then HC
    else if state == READCC then CC else if state == READLU then LU else LC
  }

  lemma FirstNext(s: Scan, c: char)
    requires s.state == READTHIRDNEWLINE
    ensures Next(s, c) == s.(state := FirstLetter(c))
    ensures Stops(FirstLetter(c)) || c != '\0'
  {
  }

  lemma SecondNext(s: Scan, a: char, b: char)
    requires s.state == FirstLetter(a) && !Stops(s.state)
    ensures var n := Next(s, b);
            || n.state == DGRAM_INVALID_COMMAND
            || (n.state == READDU && n.onSuccess == DGRAM_DU_COMMAND && [a, b] == "DU")
            || (n.state == READMP && n.onSuccess == DGRAM_MP_COMMAND && [a, b] == "MP")
            || (n.state == READAU && n.onSuccess == DGRAM_AU_COMMAND && [a, b] == "AU")
            || (n.state in {READBT, READBR, READHC, READCC, READLU, READLC} && [a, b] == PrintCommand(PlainOf(n.state)))
    ensures Stops(Next(s, b).state) || b != '\0'
  {
    hide Next;
    CommandNext(s, b);
  }

  function TwoLetters(c: Command): string {
    match c
    case BT => "BT" case BR => "BR" case HC => "HC" case CC => "CC" case LU => "LU" case LC => "LC"
    case DU(_) => "DU" case MP(_, _) => "MP" case AU(_, _) => "AU"
  }

  predicate IsPlain(c: Command) {
    c.BT? || c.BR? || c.HC? || c.CC? || c.LU? || c.LC?
  }

  /** The state after the two letters of a command. */
  function AfterLetters(c: Command, left: Mp3pState): Scan {
    match c
    case DU(_) => AtCommand(DGRAM_DU_COMMAND).(state := READDU)
    case MP(_, _) => AtCommand(DGRAM_MP_COMMAND).(state := READMP)
    case AU(_, _) => AtCommand(DGRAM_AU_COMMAND).(state := READAU)
    case _ => AtCommand(left).(state := PlainState(c))
  }

  lemma LettersNext(c: Command, left: Mp3pState)
    ensures var w, s := TwoLetters(c), AtCommand(left);
            && |w| == 2 && Next(s, w[0]) == s.(state := FirstLetter(w[0])) && !Stops(FirstLetter(w[0]))
              && !Stops(s.state)
            && Next(s.(state := FirstLetter(w[0])), w[1]) == AfterLetters(c, left)
  {
    hide NextHeader, Next;
    TwoLettersLength(c);
    FirstNext(AtCommand(left), TwoLetters(c)[0]);
    LaterLetter(c, left);
  }

  lemma LaterLetter(c: Command, left: Mp3pState)
    ensures var w := TwoLetters(c);
            && |w| == 2 && !Stops(FirstLetter(w[0]))
            && Next(AtCommand(left).(state := FirstLetter(w[0])), w[1]) == AfterLetters(c, left)
  {
    hide Next;
    CommandNext(AtCommand(left).(state := FirstLetter(TwoLetters(c)[0])), TwoLetters(c)[1]);
  }

  lemma CommandNext(s: Scan, c: char)
    requires s.state in {READB, READH, READC, READL, READM_FOR_MP, READ_D, READA}
    ensures Next(s, c) == NextCommand(s, c)
  {
    hide NextHeader, NextCommand;
  }

  lemma LettersRun(c: Command, t: string, left: Mp3pState)
    requires |t| > 2 && t[..2] == TwoLetters(c)
    ensures Run(AtCommand(left), t) == Run(AfterLetters(c, left), t[2..])
  {
    hide Run, Next, FirstLetter, TwoLetters, AtCommand, AfterLetters;
    LettersNext(c, left);
    var s := AtCommand(left);
    assert t[0] == t[..2][0] && t[1] == t[..2][1] && t[0..] == t;
    RunAt(s, t, 0);
    RunAt(s.(state := FirstLetter(t[0])), t, 1);
  }

  lemma PlainText(t: string, c: Command, rest: string)
    requires IsPlain(c) && CommandText(t, c, rest)
    ensures |t| > 2 && t[..2] == TwoLetters(c) == PrintCommand(c) && t[2] == '\0' && t[3..] == rest
  {
  }

  lemma WordByteIs(w: string, i: nat)
    requires IsWord(w) && i < |w|
    ensures IsWordByte(w[i])
  {
  }

  lemma WordEndsAt(t: string, w: string, i: nat)
    requires IsWord(w) && i + |w| < |t| && t[i..i + |w|] == w && !IsWordByte(t[i + |w|]) && Terminated(t)
    ensures WordEnd(t, i) == i + |w|
  {
    hide IsWordByte, Terminated;
    var j := WordEnd(t, i);
    forall k | i <= k < i + |w|
      ensures IsWordByte(t[k])
    {
      WordByteIs(w, k - i);
      assert t[k] == w[k - i];
    }
  }

  lemma OneArgumentText(t: string, u: string, rest: string)
    requires CommandText(t, DU(u), rest) && Terminated(t)
    ensures |t| > 2 && t[..2] == "DU" && t[2] == ' ' && t[2] != '\0' && IsWordByte(t[3])
            && WordEnd(t, 3) == 3 + |u| && t[3 + |u|] == '\0' && t[3..3 + |u|] == u && t[3 + |u| + 1..] == rest
  {
    assert t == "DU " + u + "\0" + rest;
    assert t[3..3 + |u|] == u && t[3] == u[0];
    WordEndsAt(t, u, 3);
  }

  lemma TwoArgumentsPieces(t: string, name: string, u: string, p: string, rest: string)
    requires |name| == 2 && t == name + " " + u + " " + p + "\0" + rest
    ensures var j := 3 + |u|;
            var k := j + 1 + |p|;
            && k < |t| && t[..2] == name && t[2] == ' ' && t[3..j] == u && t[j] == ' ' && t[j + 1..k] == p
            && t[k] == '\0' && t[k + 1..] == rest
  {
  }

  lemma TwoArgumentsPrinted(t: string, c: Command, rest: string)
    requires (c.MP? || c.AU?) && CommandText(t, c, rest)
    ensures t == TwoLetters(c) + " " + c.user + " " + c.password + "\0" + rest
  {
    assert "MP" + " " == "MP " && "AU" + " " == "AU ";
  }

  lemma TwoArgumentsText(t: string, c: Command, rest: string)
    requires (c.MP? || c.AU?) && CommandText(t, c, rest) && Terminated(t)
    ensures var j := 3 + |c.user|;
            var k := j + 1 + |c.password|;
            |t| > 2 && t[..2] == TwoLetters(c) && TwoWords(t, j, k) && 3 <= j < k < |t|
            && c == TwoArgumentCommand(t, j, k, c.MP?) && t[k + 1..] == rest
  {
    hide WordEnd, IsWord, PrintCommand, TwoLetters;
    var j := 3 + |c.user|;
    var k := j + 1 + |c.password|;
    TwoArgumentsPrinted(t, c, rest);
    TwoLettersLength(c);
    TwoArgumentsPieces(t, TwoLetters(c), c.user, c.password, rest);
    WordsAreText(c);
    WordEndsAt(t, c.user, 3);
    WordEndsAt(t, c.password, j + 1);
  }

  lemma TwoLettersLength(c: Command)
    ensures |TwoLetters(c)| == 2
  {
  }

  lemma WordsAreText(c: Command)
    requires (c.MP? || c.AU?) && ValidCommand(c)
    ensures |c.user| > 0 && |c.password| > 0
  {
  }

  /** The other direction: a printed command, its NUL, and whatever follows. */
  lemma CommandReads(t: string, c: Command, rest: string, left: Mp3pState)
    requires CommandText(t, c, rest) && Terminated(t)
    ensures Run(AtCommand(left), t).state == if rest == "" then Accepting(c) else DGRAMDISCARD
  {
    hide Run, CommandText, PrintCommand, TwoWords, WordEnd;
    var s := AfterLetters(c, left);
    match c {
      case DU(u) =>
        OneArgumentText(t, u, rest);
        LettersRun(c, t, left);
        var r := OneArgument(s, t);
      case MP(_, _) =>
        TwoArgumentsText(t, c, rest);
        LettersRun(c, t, left);
        var r := TwoArguments(s, t, true);
      case AU(_, _) =>
        TwoArgumentsText(t, c, rest);
        LettersRun(c, t, left);
        var r := TwoArguments(s, t, false);
      case _ =>
        PlainText(t, c, rest);
        LettersRun(c, t, left);
        var r := PlainEnds(s, t, c);
    }
  }
}
