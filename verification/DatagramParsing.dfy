/** What a received datagram is taken for: its form, and the fields the second pass copies out of it. */
module DatagramParsing {
  import opened Text
  import opened Datagrams
  import opened DatagramGrammar

  // ---------- the forms a datagram can have ----------

  ghost predicate WellFormed(d: string, version: string, id: string, key: string, c: Command) {
    HeadOk(version, id) && IsToken(key) && ValidCommand(c) && d == Print(version, id, key, PrintCommand(c))
  }

  /** Version, id and key are there; what follows is neither a command nor a command, a NUL and more. */
  ghost predicate UnknownCommand(d: string, version: string, id: string, key: string, text: string) {
    && HeadOk(version, id) && IsToken(key) && d == Print(version, id, key, text)
    && forall c, rest | ValidCommand(c) :: text + "\0" != PrintCommand(c) + "\0" + rest
  }

  /** A command is there, and a NUL of the sender's own after it. */
  ghost predicate TrailingText(d: string, version: string, id: string, key: string, c: Command, rest: string) {
    HeadOk(version, id) && IsToken(key) && ValidCommand(c)
      && d == Print(version, id, key, PrintCommand(c) + "\0" + rest)
  }

  /** Version and id are there; no key line follows. */
  ghost predicate BadKey(d: string, version: string, id: string, rest: string) {
    HeadOk(version, id) && d == PrintHead(version, id) + rest && !TokenLine(rest)
  }

  predicate Accepts(state: Mp3pState) {
    state in {DGRAM_LC_COMMAND, DGRAM_MP_COMMAND, DGRAM_BT_COMMAND, DGRAM_BR_COMMAND, DGRAM_HC_COMMAND,
              DGRAM_CC_COMMAND, DGRAM_LU_COMMAND, DGRAM_DU_COMMAND, DGRAM_AU_COMMAND}
  }

  /** One of the forms, with its parts, or none. */
  datatype Form =
    | Good(version: string, id: string, key: string, command: Command)
    | Unknown(version: string, id: string, key: string, text: string)
    | Trailing(version: string, id: string, key: string, command: Command, rest: string)
    | NoKey(version: string, id: string, rest: string)
    | NoHead

  ghost predicate HasForm(d: string, f: Form) {
    match f
    case Good(v, id, key, c) => WellFormed(d, v, id, key, c)
    case Unknown(v, id, key, text) => UnknownCommand(d, v, id, key, text)
    case Trailing(v, id, key, c, rest) => TrailingText(d, v, id, key, c, rest)
    case NoKey(v, id, rest) => BadKey(d, v, id, rest)
    case NoHead => forall v, id, rest | HeadOk(v, id) :: d != PrintHead(v, id) + rest
  }

  function FormState(f: Form): Mp3pState {
    match f
    case Good(_, _, _, c) => Accepting(c)
    case Unknown(_, _, _, _) => DGRAM_INVALID_COMMAND
    case Trailing(_, _, _, _, _) => DGRAMDISCARD
    case NoKey(_, _, _) => DGRAMBADAUTH
    case NoHead => DGRAMDISCARD
  }

  lemma PrintSplits(version: string, id: string, key: string, text: string)
    ensures Print(version, id, key, text) == PrintHead(version, id) + (key + "\n" + text)
  {
    calc {
      PrintHead(version, id) + (key + "\n" + text);
      ("MP3P " + version + "\n" + id + "\n") + key + "\n" + text;
    }
  }

  /** A key line and what follows it, with the NUL. */
  lemma KeyLineText(key: string, text: string)
    requires IsToken(key)
    ensures var rest := key + "\n" + text;
            TokenLine(rest) && rest[IDLENGTH + 1..] == text && rest[..IDLENGTH] == key
  {
    var rest := key + "\n" + text;
    assert rest[..IDLENGTH] == key;
  }

  /** The part of the run behind the head. */
  lemma BodyRun(version: string, id: string, rest: string, left: Mp3pState)
    requires HeadOk(version, id)
    ensures Final(PrintHead(version, id) + rest, left) ==
            if TokenLine(rest) then Run(AtCommand(left), rest[IDLENGTH + 1..] + "\0").state else DGRAMBADAUTH
  {
    hide Run, HeadOk, PrintHead, IsToken;
    var t := rest + "\0";
    assert PrintHead(version, id) + rest + "\0" == PrintHead(version, id) + t;
    HeadReads(version, id, t, left);
    KeyParts(t, left);
    assert TokenLine(t) <==> TokenLine(rest) by {
      assert |rest| >= IDLENGTH ==> t[..IDLENGTH] == rest[..IDLENGTH];
    }
    if TokenLine(rest) {
      assert t[IDLENGTH + 1..] == rest[IDLENGTH + 1..] + "\0";
    }
  }

  lemma HeadInDatagram(d: string, left: Mp3pState) returns (ok: bool, version: string, id: string, rest: string)
    ensures if ok then HeadOk(version, id) && d == PrintHead(version, id) + rest else Final(d, left) == DGRAMDISCARD
  {
    hide Run, PrintHead, HeadOk;
    var t := d + "\0";
    ok, version, id, rest := HeadParts(t, left);
    if ok {
      assert t[..|t| - 1] == d && rest == rest[..|rest| - 1] + [rest[|rest| - 1]];
      rest := rest[..|rest| - 1];
    }
  }

  /** Whatever form the datagram has decides the state the automaton ends in, whatever earlier datagrams left behind. */
  lemma FormDecides(d: string, f: Form, left: Mp3pState)
    requires HasForm(d, f)
    ensures Final(d, left) == FormState(f)
  {
    hide Run, PrintHead, Print, HeadOk, PrintCommand, IsToken, TokenLine;
    match f {
      case NoHead =>
        var ok, v, id, rest := HeadInDatagram(d, left);
      case NoKey(v, id, rest) =>
        BodyRun(v, id, rest, left);
      case _ =>
        var text := match f case Unknown(_, _, _, text) => text case Good(_, _, _, c) => PrintCommand(c)
                            case Trailing(_, _, _, c, rest) => PrintCommand(c) + "\0" + rest;
        PrintSplits(f.version, f.id, f.key, text);
        KeyLineText(f.key, text);
        BodyRun(f.version, f.id, f.key + "\n" + text, left);
        TextDecides(f, text, left);
    }
  }

  lemma TextDecides(f: Form, text: string, left: Mp3pState)
    requires match f
             case Unknown(_, _, _, w) => text == w
               && forall c, rest | ValidCommand(c) :: text + "\0" != PrintCommand(c) + "\0" + rest
             case Good(_, _, _, c) => ValidCommand(c) && text == PrintCommand(c)
             case Trailing(_, _, _, c, rest) => ValidCommand(c) && text == PrintCommand(c) + "\0" + rest
             case _ => false
    ensures Run(AtCommand(left), text + "\0").state == FormState(f)
  {
    hide Run, PrintCommand;
    match f {
      case Good(_, _, _, c) =>
        assert text + "\0" == PrintCommand(c) + "\0" + "";
        CommandReads(text + "\0", c, "", left);
      case Trailing(_, _, _, c, rest) =>
        assert text + "\0" == PrintCommand(c) + "\0" + (rest + "\0");
        CommandReads(text + "\0", c, rest + "\0", left);
      case _ =>
        var r := CommandRun(text + "\0", left);
    }
  }

  /** Every datagram has a form. */
  lemma SomeForm(d: string) returns (f: Form)
    ensures HasForm(d, f)
  {
    hide Run, PrintHead, Print, HeadOk, PrintCommand, IsToken;
    if v, id, rest :| HeadOk(v, id) && d == PrintHead(v, id) + rest {
      if !TokenLine(rest) {
        return NoKey(v, id, rest);
      }
      var key, text := rest[..IDLENGTH], rest[IDLENGTH + 1..];
      assert rest == key + "\n" + text;
      PrintSplits(v, id, key, text);
      if c, more :| ValidCommand(c) && text + "\0" == PrintCommand(c) + "\0" + more {
        CommandLast(text, PrintCommand(c), more);
        f := if more == "" then Good(v, id, key, c) else Trailing(v, id, key, c, more[..|more| - 1]);
      } else {
        f := Unknown(v, id, key, text);
      }
    } else {
      f := NoHead;
    }
  }

  lemma CommandLast(text: string, command: string, more: string)
    requires text + "\0" == command + "\0" + more
    ensures if more == "" then text == command else text == command + "\0" + more[..|more| - 1]
  {
    var t := text + "\0";
    assert text == t[..|t| - 1];
    if more == "" {
      assert command + "\0" + more == command + "\0";
    } else {
      assert more == more[..|more| - 1] + [more[|more| - 1]];
    }
  }

  // ---------- the automaton and the grammar ----------

  /** The automaton ends in a command's state on exactly the well-formed datagrams, and names what is wrong with the
      others. */
  lemma AutomatonIsGrammar(d: string, left: Mp3pState)
    ensures Accepts(Final(d, left)) <==> exists v, id, key, c :: WellFormed(d, v, id, key, c)
    ensures Final(d, left) == DGRAM_INVALID_COMMAND <==> exists v, id, key, text :: UnknownCommand(d, v, id, key, text)
    ensures Final(d, left) == DGRAMBADAUTH <==> exists v, id, rest :: BadKey(d, v, id, rest)
    ensures Accepts(Final(d, left)) || Final(d, left) in {DGRAM_INVALID_COMMAND, DGRAMBADAUTH, DGRAMDISCARD}
  {
    hide Final, WellFormed, UnknownCommand, BadKey, TrailingText, HeadOk, PrintHead;
    var f := SomeForm(d);
    FormDecides(d, f, left);
    if v, id, key, c :| WellFormed(d, v, id, key, c) {
      FormDecides(d, Good(v, id, key, c), left);
    }
    if v, id, key, text :| UnknownCommand(d, v, id, key, text) {
      FormDecides(d, Unknown(v, id, key, text), left);
    }
    if v, id, rest :| BadKey(d, v, id, rest) {
      FormDecides(d, NoKey(v, id, rest), left);
    }
  }

  /** What earlier datagrams left in the static variable has no effect. */
  lemma StaticVariableIsHarmless(d: string, left1: Mp3pState, left2: Mp3pState)
    ensures Final(d, left1) == Final(d, left2)
  {
    hide Final;
    var f := SomeForm(d);
    FormDecides(d, f, left1);
    FormDecides(d, f, left2);
  }
}
