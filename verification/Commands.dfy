/** The command table and the limits of the protocol. */
module Commands {
  import opened Text

  datatype PopState = ANY | AUTHENTICATION | TRANSACTION | UPDATE

  datatype Verb = USER | PASS | STAT | LIST | RETR | DELE | NOOP | RSET | QUIT | CAPA

  datatype CommandWithState = CommandWithState(commandStr: string, verb: Verb, stateNeeded: PopState)

  const MAXCOMMANDSIZE: nat := 4
  const MAXARGSIZE: nat := 40
  const MAXCOMMANDLENGTH: nat := 255

  const VALID_COMMANDS: seq<CommandWithState> := [
    CommandWithState("USER", USER, AUTHENTICATION),
    CommandWithState("PASS", PASS, AUTHENTICATION),
    CommandWithState("STAT", STAT, TRANSACTION),
    CommandWithState("LIST", LIST, TRANSACTION),
    CommandWithState("RETR", RETR, TRANSACTION),
    CommandWithState("DELE", DELE, TRANSACTION),
    CommandWithState("NOOP", NOOP, TRANSACTION),
    CommandWithState("RSET", RSET, TRANSACTION),
    CommandWithState("QUIT", QUIT, ANY),
    CommandWithState("CAPA", CAPA, ANY)
  ]

  predicate InTable(entry: CommandWithState) {
    entry in VALID_COMMANDS
  }

  /** The session state each command needs. */
  function Needed(verb: Verb): PopState {
    match verb
    case USER | PASS => AUTHENTICATION
    case QUIT | CAPA => ANY
    case _ => TRANSACTION
  }

  lemma TableNeeds(entry: CommandWithState)
    requires InTable(entry)
    ensures entry.stateNeeded == Needed(entry.verb)
  {
    var i :| 0 <= i < |VALID_COMMANDS| && VALID_COMMANDS[i] == entry;
  }

  function LookupIn(table: seq<CommandWithState>, name: string): Option<CommandWithState> {
    if table == [] then None
    else if SameIgnoringCase(table[0].commandStr, name) then Some(table[0])
    else LookupIn(table[1..], name)
  }

  /** The entry of the table a name selects. */
  function Lookup(name: string): Option<CommandWithState> {
    LookupIn(VALID_COMMANDS, name)
  }

  method GetCommand(name: string) returns (entry: Option<CommandWithState>)
    ensures entry == Lookup(name)
  {
    for i := 0 to |VALID_COMMANDS|
      invariant Lookup(name) == LookupIn(VALID_COMMANDS[i..], name)
    {
      if SameIgnoringCase(VALID_COMMANDS[i].commandStr, name) {
        return Some(VALID_COMMANDS[i]);
      }
    }
    return None;
  }

  /** Names are found in any case, and an entry found is one whose name was given. */
  lemma {:induction false} LookupSound(table: seq<CommandWithState>, name: string)
    ensures var entry := LookupIn(table, name);
            match entry
            case Some(e) => e in table && SameIgnoringCase(e.commandStr, name)
            case None => forall i | 0 <= i < |table| :: !SameIgnoringCase(table[i].commandStr, name)
  {
    if table != [] {
      LookupSound(table[1..], name);
    }
  }

  /** Each entry is found under its own name and no other entry is. */
  lemma LookupExactly(name: string, entry: CommandWithState)
    requires entry in VALID_COMMANDS
    ensures Lookup(name) == Some(entry) <==> SameIgnoringCase(entry.commandStr, name)
  {
    LookupSound(VALID_COMMANDS, name);
    if SameIgnoringCase(entry.commandStr, name) {
      NamesDiffer(entry, Lookup(name).value, name);
    }
  }

  lemma NamesDiffer(a: CommandWithState, b: CommandWithState, name: string)
    requires a in VALID_COMMANDS && b in VALID_COMMANDS
    requires SameIgnoringCase(a.commandStr, name) && SameIgnoringCase(b.commandStr, name)
    ensures a == b
  {
    hide Lower;
    var i :| 0 <= i < |VALID_COMMANDS| && VALID_COMMANDS[i] == a;
    var j :| 0 <= j < |VALID_COMMANDS| && VALID_COMMANDS[j] == b;
    assert forall k | 0 <= k < 4 :: Lower(a.commandStr[k]) == Lower(name[k]) == Lower(b.commandStr[k]);
    EntriesDiffer(i, j);
  }

  lemma EntriesDiffer(i: nat, j: nat)
    requires i < |VALID_COMMANDS| && j < |VALID_COMMANDS|
    requires forall k | 0 <= k < 3 :: Lower(VALID_COMMANDS[i].commandStr[k]) == Lower(VALID_COMMANDS[j].commandStr[k])
    ensures i == j
  {
    var a, b := VALID_COMMANDS[i].commandStr, VALID_COMMANDS[j].commandStr;
    assert Lower(a[0]) == Lower(b[0]) && Lower(a[1]) == Lower(b[1]) && Lower(a[2]) == Lower(b[2]);
  }

  // ---------- the names of RFC 1939 and RFC 2449 ----------

  function UpperCase(c: char): char {
    if 'a' <= c <= 'z' then (c as int - 32) as char else c
  }

  function Upper(name: string): (s: string)
    ensures |s| == |name| && forall i | 0 <= i < |s| :: s[i] == UpperCase(name[i])
  {
    seq(|name|, i requires 0 <= i < |name| => UpperCase(name[i]))
  }

  /** The command of each name. */
  function VerbOf(n: string): Option<Verb> {
    if n == "USER" then Some(USER) else if n == "PASS" then Some(PASS)
    else if n == "STAT" then Some(STAT) else if n == "LIST" then Some(LIST)
    else if n == "RETR" then Some(RETR) else if n == "DELE" then Some(DELE)
    else if n == "NOOP" then Some(NOOP) else if n == "RSET" then Some(RSET)
    else if n == "QUIT" then Some(QUIT) else if n == "CAPA" then Some(CAPA)
    else None
  }

  /** The command a name stands for, in any case. */
  function VerbNamed(name: string): Option<Verb> {
    VerbOf(Upper(name))
  }

  predicate IsUpper(s: string) {
    forall i | 0 <= i < |s| :: 'A' <= s[i] <= 'Z'
  }

  lemma SameAsUpper(a: string, name: string)
    requires IsUpper(a)
    ensures SameIgnoringCase(a, name) <==> Upper(name) == a
  {
    forall i | 0 <= i < |a| && |a| == |name|
      ensures Lower(a[i]) == Lower(name[i]) <==> UpperCase(name[i]) == a[i]
    {
    }
  }

  lemma TableNames(i: nat)
    requires i < |VALID_COMMANDS|
    ensures IsUpper(VALID_COMMANDS[i].commandStr)
    ensures VerbOf(VALID_COMMANDS[i].commandStr) == Some(VALID_COMMANDS[i].verb)
  {
    TableUpper(i);
    TableVerbs(i);
  }

  lemma TableUpper(i: nat)
    requires i < |VALID_COMMANDS|
    ensures IsUpper(VALID_COMMANDS[i].commandStr)
  {
    hide VerbOf;
  }

  lemma TableVerbs(i: nat)
    requires i < |VALID_COMMANDS|
    ensures VerbOf(VALID_COMMANDS[i].commandStr) == Some(VALID_COMMANDS[i].verb)
  {
    hide IsUpper;
  }

  lemma NamesInTable(n: string)
    requires VerbOf(n).Some?
    ensures exists i :: 0 <= i < |VALID_COMMANDS| && VALID_COMMANDS[i].commandStr == n
  {
    var k :| k in {0, 1, 2, 3, 4, 5, 6, 7, 8, 9} && VALID_COMMANDS[k].commandStr == n;
  }

  /** What the table says of a name, told without the table: the ten names in any case, each with its own command and
      the state that the command needs. */
  lemma LookupIs(name: string)
    ensures Lookup(name) ==
            match VerbNamed(name)
            case Some(verb) => Some(CommandWithState(Upper(name), verb, Needed(verb)))
            case None => None
  {
    hide VerbOf, SameIgnoringCase, Needed, Upper, IsUpper;
    LookupSound(VALID_COMMANDS, name);
    match Lookup(name) {
      case Some(e) =>
        var i :| 0 <= i < |VALID_COMMANDS| && VALID_COMMANDS[i] == e;
        TableNames(i);
        SameAsUpper(e.commandStr, name);
        TableNeeds(e);
      case None =>
        if VerbNamed(name).Some? {
          NamesInTable(Upper(name));
          var i :| 0 <= i < |VALID_COMMANDS| && VALID_COMMANDS[i].commandStr == Upper(name);
          TableNames(i);
          SameAsUpper(VALID_COMMANDS[i].commandStr, name);
          assert false;
        }
    }
  }
}
