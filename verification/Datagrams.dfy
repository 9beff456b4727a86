/** MP3P datagrams on values: the automaton, the grammar it accepts, and the fields found by searching for
    separators. */
module Datagrams {
  import opened Text

  const VERSION: string := "V1.0"
  const AUTHKEY: string := "C9h2iUZ4sWJY16fDl7Vg5RnH0vN8aQpX"
  const IDLENGTH: nat := 32
  const MAXDATAGRAMLENGTH: nat := 8096
  const MAX_UDP_REQUEST_SIZE: nat := 2048

  // ---------- the automaton ----------

  datatype Mp3pState =
    | START | READM | READP | READ3 | READSECONDP | READVERSIONSEPARATOR | READVERSIONV | READVERSIONNUM
    | READVERSIONDOT | READVERSIONSUBNUM | READFIRSTNEWLINE | READCLIENTDGRAMID | READSECONDNEWLINE
    | READCLIENTPASSWORD | READTHIRDNEWLINE
    | READB | READBT | READBR | READH | READHC | READC | READCC | READL | READLU | READLC
    | READM_FOR_MP | READMP | READA | READAU | READ_D | READDU
    | READONEARGSEPARATOR | READFIRSTARGSEPARATOR | READSECONDARGSEPARATOR
    | READINGUSER | READINGONLYUSER | READINGPASSWORD
    | DGRAM_LC_COMMAND | DGRAM_MP_COMMAND | DGRAM_BT_COMMAND | DGRAM_BR_COMMAND | DGRAM_HC_COMMAND
    | DGRAM_CC_COMMAND | DGRAM_LU_COMMAND | DGRAM_DU_COMMAND | DGRAM_AU_COMMAND
    | DGRAM_INVALID_COMMAND | DGRAMDISCARD | DGRAMBADAUTH

  predicate IsAlnum(c: char) {
    '0' <= c <= '9' || 'A' <= c <= 'Z' || 'a' <= c <= 'z'
  }

  /** A byte that may stand in a user name or a password. */
  predicate IsWordByte(c: char) {
    c != ' ' && c != '\n' && c != '\0'
  }

  /** The state, the two counters, and the static variable that says what a complete argument leads to. */
  datatype Scan = Scan(state: Mp3pState, idLength: nat, keyLength: nat, onSuccess: Mp3pState)

  function Expect(s: Scan, c: char, wanted: char, next: Mp3pState, otherwise: Mp3pState): Scan {
    s.(state := if c == wanted then next else otherwise)
  }

  /** The part of the automaton that reads header, version, id and key. */
  function NextHeader(s: Scan, c: char): Scan {
    match s.state
    case START => Expect(s, c, 'M', READM, DGRAMDISCARD)
    case READM => Expect(s, c, 'P', READP, DGRAMDISCARD)
    case READP => Expect(s, c, '3', READ3, DGRAMDISCARD)
    case READ3 => Expect(s, c, 'P', READSECONDP, DGRAMDISCARD)
    case READSECONDP => Expect(s, c, ' ', READVERSIONSEPARATOR, DGRAMDISCARD)
    case READVERSIONSEPARATOR => Expect(s, c, 'V', READVERSIONV, DGRAMDISCARD)
    case READVERSIONV => s.(state := if IsDigit(c) then READVERSIONNUM else DGRAMDISCARD)
    case READVERSIONNUM => if IsDigit(c) then s else Expect(s, c, '.', READVERSIONDOT, DGRAMDISCARD)
    case READVERSIONDOT => s.(state := if IsDigit(c) then READVERSIONSUBNUM else DGRAMDISCARD)
    case READVERSIONSUBNUM => Expect(s, c, '\n', READFIRSTNEWLINE, DGRAMDISCARD)
    case READFIRSTNEWLINE =>
      if IsAlnum(c) then s.(state := READCLIENTDGRAMID, idLength := s.idLength + 1) else s.(state := DGRAMDISCARD)
    case READCLIENTDGRAMID =>
      if c == '\n' && s.idLength == IDLENGTH then s.(state := READSECONDNEWLINE)
      else if s.idLength < IDLENGTH && IsAlnum(c) then s.(idLength := s.idLength + 1)
      else s.(state := DGRAMDISCARD)
    case READSECONDNEWLINE =>
      if IsAlnum(c) then s.(state := READCLIENTPASSWORD, keyLength := s.keyLength + 1) else s.(state := DGRAMBADAUTH)
    case READCLIENTPASSWORD =>
      if c == '\n' && s.keyLength == IDLENGTH then s.(state := READTHIRDNEWLINE)
      else if s.keyLength < IDLENGTH && IsAlnum(c) then s.(keyLength := s.keyLength + 1)
      else s.(state := DGRAMBADAUTH)
    case _ => s.(state := DGRAMDISCARD)
  }

  predicate ReadsHeader(state: Mp3pState) {
    state in {START, READM, READP, READ3, READSECONDP, READVERSIONSEPARATOR, READVERSIONV, READVERSIONNUM,
              READVERSIONDOT, READVERSIONSUBNUM, READFIRSTNEWLINE, READCLIENTDGRAMID, READSECONDNEWLINE,
              READCLIENTPASSWORD}
  }

  function FirstLetter(c: char): Mp3pState {
    if c == 'B' then READB else if c == 'H' then READH else if c == 'C' then READC else if c == 'L' then READL
    else if c == 'M' then READM_FOR_MP else if c == 'D' then READ_D else if c == 'A' then READA
    else DGRAM_INVALID_COMMAND
  }

  /** The second letter of a command whose arguments follow, which the static variable remembers. */
  function Remember(s: Scan, c: char, wanted: char, next: Mp3pState, success: Mp3pState): Scan {
    if c == wanted then s.(state := next, onSuccess := success) else s.(state := DGRAM_INVALID_COMMAND)
  }

  /** The part of the automaton that reads the command. */
  function NextCommand(s: Scan, c: char): Scan {
    match s.state
    case READTHIRDNEWLINE => s.(state := FirstLetter(c))
    case READA => Remember(s, c, 'U', READAU, DGRAM_AU_COMMAND)
    case READ_D => Remember(s, c, 'U', READDU, DGRAM_DU_COMMAND)
    case READM_FOR_MP => Remember(s, c, 'P', READMP, DGRAM_MP_COMMAND)
    case READL => if c == 'U' then s.(state := READLU) else Expect(s, c, 'C', READLC, DGRAM_INVALID_COMMAND)
    case READC => Expect(s, c, 'C', READCC, DGRAM_INVALID_COMMAND)
    case READH => Expect(s, c, 'C', READHC, DGRAM_INVALID_COMMAND)
    case READB => if c == 'R' then s.(state := READBR) else Expect(s, c, 'T', READBT, DGRAM_INVALID_COMMAND)
    case READBT => Expect(s, c, '\0', DGRAM_BT_COMMAND, DGRAM_INVALID_COMMAND)
    case READBR => Expect(s, c, '\0', DGRAM_BR_COMMAND, DGRAM_INVALID_COMMAND)
    case READHC => Expect(s, c, '\0', DGRAM_HC_COMMAND, DGRAM_INVALID_COMMAND)
    case READCC => Expect(s, c, '\0', DGRAM_CC_COMMAND, DGRAM_INVALID_COMMAND)
    case READLC => Expect(s, c, '\0', DGRAM_LC_COMMAND, DGRAM_INVALID_COMMAND)
    case READLU => Expect(s, c, '\0', DGRAM_LU_COMMAND, DGRAM_INVALID_COMMAND)
    case READDU => Expect(s, c, ' ', READONEARGSEPARATOR, DGRAM_INVALID_COMMAND)
    case READMP => Expect(s, c, ' ', READFIRSTARGSEPARATOR, DGRAM_INVALID_COMMAND)
    case READAU => Expect(s, c, ' ', READFIRSTARGSEPARATOR, DGRAM_INVALID_COMMAND)
    case READONEARGSEPARATOR => s.(state := if IsWordByte(c) then READINGONLYUSER else DGRAM_INVALID_COMMAND)
    case READFIRSTARGSEPARATOR => s.(state := if IsWordByte(c) then READINGUSER else DGRAM_INVALID_COMMAND)
    case READINGONLYUSER => if IsWordByte(c) then s else Expect(s, c, '\0', s.onSuccess, DGRAM_INVALID_COMMAND)
    case READINGUSER => if IsWordByte(c) then s else Expect(s, c, ' ', READSECONDARGSEPARATOR, DGRAM_INVALID_COMMAND)
    case READSECONDARGSEPARATOR => s.(state := if IsWordByte(c) then READINGPASSWORD else DGRAM_INVALID_COMMAND)
    case READINGPASSWORD => if IsWordByte(c) then s else Expect(s, c, '\0', s.onSuccess, DGRAM_INVALID_COMMAND)
    case _ => s.(state := DGRAMDISCARD)
  }

  /** parseMp3pCharacter */
  function Next(s: Scan, c: char): Scan {
    if ReadsHeader(s.state) then NextHeader(s, c) else NextCommand(s, c)
  }

  /** The states that end the loop. */
  predicate Stops(state: Mp3pState) {
    state == DGRAM_INVALID_COMMAND || state == DGRAMDISCARD || state == DGRAMBADAUTH
  }

  function Run(s: Scan, t: string): Scan
    decreases |t|
  {
    if t == "" || Stops(s.state) then s else Run(Next(s, t[0]), t[1..])
  }

  /** The automaton over a datagram and the NUL put after it; `left` is what earlier datagrams left in the static
      variable. */
  function Final(d: string, left: Mp3pState): Mp3pState {
    Run(Scan(START, 0, 0, left), d + "\0").state
  }

  // ---------- the grammar ----------

  datatype Command =
    | BT | BR | HC | CC | LU | LC
    | DU(user: string) | MP(user: string, password: string) | AU(user: string, password: string)

  /** At least one byte, and none that separates. */
  predicate IsWord(s: string) {
    s != "" && forall i | 0 <= i < |s| :: s[i] != ' ' && s[i] != '\n' && s[i] != '\0'
  }

  predicate ValidCommand(c: Command) {
    match c
    case DU(u) => IsWord(u)
    case MP(u, p) => IsWord(u) && IsWord(p)
    case AU(u, p) => IsWord(u) && IsWord(p)
    case _ => true
  }

  function PrintCommand(c: Command): string {
    match c
    case BT => "BT" case BR => "BR" case HC => "HC" case CC => "CC" case LU => "LU" case LC => "LC"
    case DU(u) => "DU " + u
    case MP(u, p) => "MP " + u + " " + p
    case AU(u, p) => "AU " + u + " " + p
  }

  function Accepting(c: Command): Mp3pState {
    match c
    case BT => DGRAM_BT_COMMAND case BR => DGRAM_BR_COMMAND case HC => DGRAM_HC_COMMAND case CC => DGRAM_CC_COMMAND
    case LU => DGRAM_LU_COMMAND case LC => DGRAM_LC_COMMAND
    case DU(_) => DGRAM_DU_COMMAND case MP(_, _) => DGRAM_MP_COMMAND case AU(_, _) => DGRAM_AU_COMMAND
  }

  /** V, one or more digits, a dot and a digit. */
  predicate IsVersion(v: string) {
    && |v| >= 4 && v[0] == 'V' && v[|v| - 2] == '.' && '0' <= v[|v| - 1] <= '9'
    && forall i | 1 <= i < |v| - 2 :: '0' <= v[i] <= '9'
  }

  /** 32 letters and digits. */
  predicate IsToken(s: string) {
    |s| == 32
    && forall i | 0 <= i < |s| :: '0' <= s[i] <= '9' || 'A' <= s[i] <= 'Z' || 'a' <= s[i] <= 'z'
  }

  /** The format of the monitoring client's datagrams. */
  function Print(version: string, id: string, key: string, command: string): string {
    "MP3P " + version + "\n" + id + "\n" + key + "\n" + command
  }

  // ---------- runs over one part ----------

  lemma RunStopped(s: Scan, t: string)
    ensures Stops(s.state) ==> Run(s, t) == s
  {
  }

  lemma RunFirst(s: Scan, t: string)
    requires !Stops(s.state) && t != ""
    ensures Run(s, t) == Run(Next(s, t[0]), t[1..])
  {
  }
}
