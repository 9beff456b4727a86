/** MP3P as the server runs it: a parser with a variable that outlives its calls, headers filled in place, users
    changed in place. */
module DatagramServer {
  import opened Text
  import opened Users
  import opened UserList
  import opened Datagrams
  import opened DatagramGrammar
  import opened DatagramParsing
  import opened DatagramFields
  import opened DatagramHeaders
  import opened DatagramReplies
  import opened DatagramClient

  /** What a parsed datagram is stored in. */
  class Mp3pData {
    /** The headers' fields, side by side as in memory. */
    const headers: array<char>
    var commandFunction: Strategy

    ghost predicate Valid()
      reads this
    {
      headers.Length == HEADERS_SIZE
    }

    /** Headers that hold whatever the stack held. */
    constructor (stack: Headers)
      ensures Valid() && fresh(headers) && headers[..] == stack && commandFunction == Unset
    {
      headers := new char[HEADERS_SIZE](i requires 0 <= i < HEADERS_SIZE => stack[i]);
      commandFunction := Unset;
    }
  }

  datatype Status = DGRAMSUCCESS | DGRAMERROR | OVERRUN

  // ---------- the copies ----------

  /** The copy of `text` to `at` is under way: its bytes are there, its NUL is not. */
  predicate UnderWay(m: Headers, at: nat, text: string, now: string) {
    && at + |text| < HEADERS_SIZE && |now| == HEADERS_SIZE
    && now[..at] == m[..at] && now[at..at + |text|] == text && now[at + |text|..] == m[at + |text|..]
  }

  lemma CopyBegins(m: Headers, at: nat)
    requires at < HEADERS_SIZE
    ensures UnderWay(m, at, "", m)
  {
  }

  lemma CopyGoesOn(m: Headers, at: nat, text: string, now: string, c: char)
    requires UnderWay(m, at, text, now) && at + |text| + 1 < HEADERS_SIZE
    ensures UnderWay(m, at, text + [c], now[at + |text| := c])
  {
    var n := at + |text|;
    var now' := now[n := c];
    assert now'[at..n + 1] == now[at..n] + [c];
    assert now'[n + 1..] == now[n..][1..] && m[n + 1..] == m[n..][1..];
  }

  lemma CopyEnds(m: Headers, at: nat, text: string, now: string)
    requires UnderWay(m, at, text, now)
    ensures now[at + |text| := '\0'] == Store(m, at, text)
  {
    var n := at + |text|;
    assert now[n..][1..] == m[n..][1..];
    assert now[n := '\0'] == now[..at] + now[at..n] + "\0" + now[n..][1..];
  }

  lemma SliceGrows(t: string, a: nat, b: nat)
    requires a <= b < |t|
    ensures t[a..b + 1] == t[a..b] + [t[b]]
  {
  }

  lemma SliceEmpty(t: string, a: nat)
    requires a <= |t|
    ensures t[a..a] == ""
  {
  }

  /** Copies from `line` up to a newline, or up to a space or a NUL, to `at`; None when it would leave an array. */
  method Copy(dgram: array<char>, len: nat, line: nat, word: bool, headers: array<char>, at: nat)
    returns (end: Option<nat>)
    requires len <= dgram.Length && line <= len && dgram != headers
    requires headers.Length == HEADERS_SIZE && at < HEADERS_SIZE
    modifies headers
    ensures var e := CopyEnd(dgram[..len], line, word);
            && end == (if e.Some? && Storable(at, dgram[..len][line..e.value]) then e else None)
            && (end.Some? ==> headers[..] == Store(old(headers[..]), at, dgram[..len][line..e.value]))
  {
    hide UnderWay, CopyEnd, Store;
    ghost var t, m := dgram[..len], headers[..];
    var i := line;
    CopyEndBound(t, line, word);
    CopyBegins(m, at);
    SliceEmpty(t, line);
    while i < len && !Ends(dgram[i], word) && at + (i - line) + 1 < HEADERS_SIZE
      invariant line <= i <= len && at + (i - line) < HEADERS_SIZE && dgram[..len] == t
      invariant CopyEnd(t, line, word) == CopyEnd(t, i, word)
      invariant UnderWay(m, at, t[line..i], headers[..])
    {
      CopyGoesOn(m, at, t[line..i], headers[..], t[i]);
      CopyEndBound(t, i, word);
      SliceGrows(t, line, i);
      headers[at + (i - line)] := dgram[i];
      i := i + 1;
    }
    CopyEndBound(t, i, word);
    if i < len && Ends(dgram[i], word) {
      CopyEnds(m, at, t[line..i], headers[..]);
      headers[at + (i - line)] := '\0';
      end := Some(i);
    } else {
      end := None;
    }
  }

  predicate Ends(c: char, word: bool) {
    if word then c == ' ' || c == '\0' else c == '\n'
  }

  function CopyEnd(t: string, i: nat, word: bool): (r: Option<nat>) {
    if word then ArgumentEnd(t, i) else LineEnd(t, i)
  }

  lemma CopyEndBound(t: string, i: nat, word: bool)
    requires i <= |t|
    ensures CopyEnd(t, i, word).Some? ==> i <= CopyEnd(t, i, word).value < |t|
    ensures i < |t| ==> CopyEnd(t, i, word) == if Ends(t[i], word) then Some(i) else CopyEnd(t, i + 1, word)
    ensures i < |t| && !Ends(t[i], word) && CopyEnd(t, i, word).Some? ==> CopyEnd(t, i, word).value > i
    ensures i == |t| ==> CopyEnd(t, i, word) == None
  {
  }

  method CopyVersion(dgram: array<char>, len: nat, headers: array<char>) returns (end: Option<nat>)
    requires len <= dgram.Length && dgram != headers && headers.Length == HEADERS_SIZE
    modifies headers
    ensures var v := Strchr(dgram[..len], 'V', 0);
            match v
            case None => end == None
            case Some(i) =>
              var e := LineEnd(dgram[..len], i);
              && end == (if e.Some? && Storable(VERSION_AT, dgram[..len][i..e.value]) then e else None)
              && (end.Some? ==> headers[..] == Store(old(headers[..]), VERSION_AT, dgram[..len][i..e.value]))
  {
    hide Strchr, LineEnd, Store;
    var versionPtr := Strchr(dgram[..len], 'V', 0);
    end := None;
    if versionPtr.Some? {
      end := Copy(dgram, len, versionPtr.value, false, headers, VERSION_AT);
    }
  }

  /** The word behind the separator at `p`. */
  method CopyWord(dgram: array<char>, len: nat, p: Option<nat>, headers: array<char>, at: nat) returns (ok: bool)
    requires len <= dgram.Length && dgram != headers && headers.Length == HEADERS_SIZE && at < HEADERS_SIZE
    requires p.Some? ==> p.value < len
    modifies headers
    ensures var word := if p == None then None
            else Cut(dgram[..len], p.value + 1, ArgumentEnd(dgram[..len], p.value + 1));
            && (ok <==> word.Some? && Storable(at, word.value))
            && (ok ==> headers[..] == Store(old(headers[..]), at, word.value))
  {
    hide ArgumentEnd, Store;
    ok := false;
    if p.Some? {
      var end := Copy(dgram, len, p.value + 1, true, headers, at);
      ok := end.Some?;
    }
  }

  /** The headers after the words the state asks for, or None. */
  function WordsStored(t: string, command: nat, state: Mp3pState, m: Headers): Option<Headers> {
    var user := if HasUsername(state) then ObtainUsername(t, command) else None;
    var password := if HasPassword(state) then ObtainPassword(t, command) else None;
    if (HasUsername(state) && user == None) || (HasPassword(state) && password == None) then None
    else StoreWords(Some(m), user, password)
  }

  method FillWords(dgram: array<char>, len: nat, headers: array<char>, state: Mp3pState, command: nat)
    returns (ok: bool)
    requires len <= dgram.Length && dgram != headers && headers.Length == HEADERS_SIZE
    modifies headers
    ensures ok <==> WordsStored(dgram[..len], command, state, old(headers[..])).Some?
    ensures ok ==> WordsStored(dgram[..len], command, state, old(headers[..])) == Some(headers[..])
  {
    hide Strchr, Strrchr, ArgumentEnd, Store;
    ok := true;
    if HasUsername(state) {
      ok := CopyWord(dgram, len, Strchr(dgram[..len], ' ', command), headers, USERNAME_AT);
      if !ok {
        return;
      }
    }
    if HasPassword(state) {
      ok := CopyWord(dgram, len, Strrchr(dgram[..len], ' ', command), headers, PASSWORD_AT);
    }
  }

  /** Where the three texts end, if they do. */
  datatype Ends3 = Ends3(v: nat, e1: nat, e2: nat, e3: nat)

  function ThreeEnds(t: string): Option<Ends3> {
    var v := Strchr(t, 'V', 0);
    if v == None then None else
    var e1 := LineEnd(t, v.value);
    if e1 == None then None else
    var e2 := LineEnd(t, e1.value + 1);
    if e2 == None then None else
    var e3 := LineEnd(t, e2.value + 1);
    if e3 == None then None else Some(Ends3(v.value, e1.value, e2.value, e3.value))
  }

  /** The copies, one by one. */
  lemma CopiesInOrder(t: string, state: Mp3pState, m: Headers)
    ensures CopyDgramData(t, state, m) ==
            match ThreeEnds(t)
            case None => None
            case Some(e) =>
              var m3 := StoreThree(m, t[e.v..e.e1], t[e.e1 + 1..e.e2], t[e.e2 + 1..e.e3]);
              if m3 == None then None else WordsStored(t, e.e3 + 1, state, m3.value)
  {
    hide Strchr, LineEnd, ObtainUsername, ObtainPassword, StoreThree, Put, HasUsername, HasPassword;
    PutNone();
  }

  lemma PutNone()
    ensures forall at, text :: Put(None, at, text) == None
  {
  }

  /** Version, id and key; None when a copy leaves the datagram or the headers, otherwise where the key ends. */
  method FillThree(dgram: array<char>, len: nat, headers: array<char>) returns (end: Option<nat>)
    requires len <= dgram.Length && dgram != headers && headers.Length == HEADERS_SIZE
    modifies headers
    ensures var t, m := dgram[..len], old(headers[..]);
            match ThreeEnds(t)
            case None => end == None
            case Some(e) =>
              var m3 := StoreThree(m, t[e.v..e.e1], t[e.e1 + 1..e.e2], t[e.e2 + 1..e.e3]);
              && end == (if m3.Some? then Some(e.e3) else None)
              && (end.Some? ==> m3 == Some(headers[..]))
  {
    hide LineEnd, Strchr, Store, Storable;
    end := CopyVersion(dgram, len, headers);
    if end.Some? {
      end := Copy(dgram, len, end.value + 1, false, headers, UNIQUEID_AT);
      if end.Some? {
        end := Copy(dgram, len, end.value + 1, false, headers, AUTHORIZATION_AT);
      }
    }
  }

  /** Fills the headers in place; false when a copy leaves the datagram or the headers. */
  method FillHeaders(dgram: array<char>, len: nat, headers: array<char>, state: Mp3pState) returns (ok: bool)
    requires len <= dgram.Length && dgram != headers && headers.Length == HEADERS_SIZE
    modifies headers
    ensures ok <==> CopyDgramData(dgram[..len], state, old(headers[..])).Some?
    ensures ok ==> CopyDgramData(dgram[..len], state, old(headers[..])) == Some(headers[..])
  {
    hide ThreeEnds, StoreThree, WordsStored, CopyDgramData;
    CopiesInOrder(dgram[..len], state, headers[..]);
    var end := FillThree(dgram, len, headers);
    ok := false;
    if end.Some? {
      ok := FillWords(dgram, len, headers, state, end.value + 1);
    }
  }

  // ---------- the parser ----------

  class DatagramParser {
    /** The static variable: whatever the last command with arguments left in it. */
    var onSuccessCommandState: Mp3pState

    constructor ()
      ensures onSuccessCommandState == START
    {
      onSuccessCommandState := START;
    }

    /** The states of header, version, id and key, with the two counters. */
    method ParseHeadCharacter(c: char, prevState: Mp3pState, idLength: nat, keyLength: nat)
      returns (state: Mp3pState, idLength': nat, keyLength': nat)
      requires ReadsHeader(prevState)
      ensures Scan(state, idLength', keyLength', onSuccessCommandState) ==
              Next(Scan(prevState, idLength, keyLength, onSuccessCommandState), c)
    {
      idLength', keyLength' := idLength, keyLength;
      state := DGRAMDISCARD;
      match prevState {
        case START =>
          if c == 'M' { state := READM; }
        case READM =>
          if c == 'P' { state := READP; }
        case READP =>
          if c == '3' { state := READ3; }
        case READ3 =>
          if c == 'P' { state := READSECONDP; }
        case READSECONDP =>
          if c == ' ' { state := READVERSIONSEPARATOR; }
        case READVERSIONSEPARATOR =>
          if c == 'V' { state := READVERSIONV; }
        case READVERSIONV =>
          if '0' <= c <= '9' { state := READVERSIONNUM; }
        case READVERSIONNUM =>
          if '0' <= c <= '9' { state := READVERSIONNUM; } else if c == '.' { state := READVERSIONDOT; }
        case READVERSIONDOT =>
          if '0' <= c <= '9' { state := READVERSIONSUBNUM; }
        case READVERSIONSUBNUM =>
          if c == '\n' { state := READFIRSTNEWLINE; }
        case READFIRSTNEWLINE =>
          if IsAlnum(c) {
            idLength' := idLength + 1;
            state := READCLIENTDGRAMID;
          }
        case READCLIENTDGRAMID =>
          if c == '\n' && idLength == IDLENGTH {
            state := READSECONDNEWLINE;
          } else if idLength < IDLENGTH && IsAlnum(c) {
            idLength' := idLength + 1;
            state := READCLIENTDGRAMID;
          }
        case READSECONDNEWLINE =>
          state := DGRAMBADAUTH;
          if IsAlnum(c) {
            keyLength' := keyLength + 1;
            state := READCLIENTPASSWORD;
          }
        case READCLIENTPASSWORD =>
          state := DGRAMBADAUTH;
          if c == '\n' && keyLength == IDLENGTH {
            state := READTHIRDNEWLINE;
          } else if keyLength < IDLENGTH && IsAlnum(c) {
            keyLength' := keyLength + 1;
            state := READCLIENTPASSWORD;
          }
      }
    }

    /** The states of the command, with the static variable. */
    method ParseCommandCharacter(c: char, prevState: Mp3pState) returns (state: Mp3pState)
      requires !ReadsHeader(prevState)
      modifies this
      ensures forall i, k ::
                Scan(state, i, k, onSuccessCommandState) == Next(Scan(prevState, i, k, old(onSuccessCommandState)), c)
    {
      hide NextHeader;
      state := DGRAM_INVALID_COMMAND;
      match prevState {
        case READTHIRDNEWLINE =>
          if c == 'B' { state := READB; }
          else if c == 'H' { state := READH; }
          else if c == 'C' { state := READC; }
          else if c == 'L' { state := READL; }
          else if c == 'M' { state := READM_FOR_MP; }
          else if c == 'D' { state := READ_D; }
          else if c == 'A' { state := READA; }
        case READA =>
          if c == 'U' {
            onSuccessCommandState := DGRAM_AU_COMMAND;
            state := READAU;
          }
        case READ_D =>
          if c == 'U' {
            onSuccessCommandState := DGRAM_DU_COMMAND;
            state := READDU;
          }
        case READM_FOR_MP =>
          if c == 'P' {
            onSuccessCommandState := DGRAM_MP_COMMAND;
            state := READMP;
          }
        case READL =>
          if c == 'U' { state := READLU; } else if c == 'C' { state := READLC; }
        case READC =>
          if c == 'C' { state := READCC; }
        case READH =>
          if c == 'C' { state := READHC; }
        case READB =>
          if c == 'R' { state := READBR; } else if c == 'T' { state := READBT; }
        case READBT =>
          if c == '\0' { state := DGRAM_BT_COMMAND; }
        case READBR =>
          if c == '\0' { state := DGRAM_BR_COMMAND; }
        case READHC =>
          if c == '\0' { state := DGRAM_HC_COMMAND; }
        case READCC =>
          if c == '\0' { state := DGRAM_CC_COMMAND; }
        case READLC =>
          if c == '\0' { state := DGRAM_LC_COMMAND; }
        case READLU =>
          if c == '\0' { state := DGRAM_LU_COMMAND; }
        case _ => state := ParseArgumentCharacter(c, prevState);
      }
    }

    /** The states of the arguments, and those that no character may follow. */
    method ParseArgumentCharacter(c: char, prevState: Mp3pState) returns (state: Mp3pState)
      requires !ReadsHeader(prevState)
      requires prevState !in {READTHIRDNEWLINE, READA, READ_D, READM_FOR_MP, READL, READC, READH, READB}
      requires prevState !in {READBT, READBR, READHC, READCC, READLC, READLU}
      ensures forall i, k ::
                Scan(state, i, k, onSuccessCommandState) == Next(Scan(prevState, i, k, onSuccessCommandState), c)
    {
      hide NextHeader;
      state := DGRAM_INVALID_COMMAND;
      match prevState {
        case READDU =>
          if c == ' ' { state := READONEARGSEPARATOR; }
        case READMP | READAU =>
          if c == ' ' { state := READFIRSTARGSEPARATOR; }
        case READONEARGSEPARATOR =>
          if c != ' ' && c != '\n' && c != '\0' { state := READINGONLYUSER; }
        case READFIRSTARGSEPARATOR =>
          if c != ' ' && c != '\n' && c != '\0' { state := READINGUSER; }
        case READINGONLYUSER =>
          if c != ' ' && c != '\n' && c != '\0' { state := READINGONLYUSER; }
          else if c == '\0' { state := onSuccessCommandState; }
        case READINGUSER =>
          if c == ' ' { state := READSECONDARGSEPARATOR; }
          else if c != '\n' && c != '\0' { state := READINGUSER; }
        case READSECONDARGSEPARATOR =>
          if c != ' ' && c != '\n' && c != '\0' { state := READINGPASSWORD; }
        case READINGPASSWORD =>
          if c != '\n' && c != ' ' && c != '\0' { state := READINGPASSWORD; }
          else if c == '\0' { state := onSuccessCommandState; }
        case _ => state := DGRAMDISCARD;
      }
    }

    method ParseCharacter(c: char, prevState: Mp3pState, idLength: nat, keyLength: nat)
      returns (state: Mp3pState, idLength': nat, keyLength': nat)
      modifies this
      ensures Scan(state, idLength', keyLength', onSuccessCommandState) ==
              Next(Scan(prevState, idLength, keyLength, old(onSuccessCommandState)), c)
    {
      hide Next, ReadsHeader;
      if ReadsHeader(prevState) {
        state, idLength', keyLength' := ParseHeadCharacter(c, prevState, idLength, keyLength);
      } else {
        idLength', keyLength' := idLength, keyLength;
        state := ParseCommandCharacter(c, prevState);
      }
    }

    method ScanDatagram(dgram: array<char>, dgramLen: nat) returns (state: Mp3pState)
      requires dgramLen <= dgram.Length
      modifies this
      ensures var s := Scanned(dgram[..dgramLen], old(onSuccessCommandState));
              state == s.state && onSuccessCommandState == s.onSuccess
    {
      hide Next, Run;
      state := START;
      var idLength, keyLength, i := 0, 0, 0;
      ghost var n := Min(dgramLen, MAXDATAGRAMLENGTH);
      ghost var t := dgram[..n];
      assert dgram[..dgramLen][..n] == t && t[0..] == t;
      while i < dgramLen && i < MAXDATAGRAMLENGTH
        invariant i <= n
        invariant Scanned(dgram[..dgramLen], old(onSuccessCommandState)) ==
                  Run(Scan(state, idLength, keyLength, onSuccessCommandState), t[i..])
        invariant !Stops(state)
      {
        RunAt(Scan(state, idLength, keyLength, onSuccessCommandState), t, i);
        state, idLength, keyLength := ParseCharacter(dgram[i], state, idLength, keyLength);
        i := i + 1;
        if Stops(state) {
          RunStopped(Scan(state, idLength, keyLength, onSuccessCommandState), t[i..]);
          return;
        }
      }
      assert t[i..] == "";
      RunNothing(Scan(state, idLength, keyLength, onSuccessCommandState));
    }

    /** The two checks and the switch. */
    method SelectStrategy(state: Mp3pState, dest: Mp3pData)
      requires dest.Valid() && dest.commandFunction == Unset
      modifies dest`commandFunction
      ensures dest.commandFunction ==
              Choose(state, CString(dest.headers[..], VERSION_AT), CString(dest.headers[..], AUTHORIZATION_AT))
    {
      hide VERSION, AUTHKEY, CString;
      if state != DGRAM_INVALID_COMMAND && state != DGRAMBADAUTH {
        if CString(dest.headers[..], VERSION_AT) != VERSION {
          dest.commandFunction := VersionMismatch;
          return;
        } else if CString(dest.headers[..], AUTHORIZATION_AT) != AUTHKEY {
          dest.commandFunction := Unauthorized;
          return;
        }
      }
      match state {
        case DGRAM_BT_COMMAND => dest.commandFunction := BytesTransfered;
        case DGRAM_BR_COMMAND => dest.commandFunction := BytesRecieved;
        case DGRAM_HC_COMMAND => dest.commandFunction := HistoricConnections;
        case DGRAM_CC_COMMAND => dest.commandFunction := ConcurrentConnections;
        case DGRAM_LU_COMMAND => dest.commandFunction := ListUsers;
        case DGRAM_MP_COMMAND => dest.commandFunction := ModifyUserPassword;
        case DGRAM_DU_COMMAND => dest.commandFunction := DeleteUser;
        case DGRAM_AU_COMMAND => dest.commandFunction := AddUser;
        case DGRAM_LC_COMMAND => dest.commandFunction := ListCapabilities;
        case DGRAMBADAUTH => dest.commandFunction := BadAuthorization;
        case DGRAM_INVALID_COMMAND => dest.commandFunction := InvalidCommand;
        case _ =>
      }
    }

    method ParseDatagram(dgram: array<char>, dgramLen: nat, dest: Mp3pData) returns (status: Status)
      requires dgramLen <= dgram.Length && dest.Valid() && dgram != dest.headers && dest.commandFunction == Unset
      modifies this, dest`commandFunction, dest.headers
      ensures match Parse(dgram[..dgramLen], old(onSuccessCommandState), old(dest.headers[..]))
              case Discarded => status == DGRAMERROR && dest.headers[..] == old(dest.headers[..])
              case Overrun => status == OVERRUN
              case Parsed(m, s) => status == DGRAMSUCCESS && dest.headers[..] == m && dest.commandFunction == s
      ensures onSuccessCommandState == Scanned(dgram[..dgramLen], old(onSuccessCommandState)).onSuccess
    {
      hide Scanned, CopyDgramData, CString, Choose;
      var state := ScanDatagram(dgram, dgramLen);
      if state == DGRAMDISCARD {
        return DGRAMERROR;
      }
      var ok := FillHeaders(dgram, dgramLen, dest.headers, state);
      if !ok {
        return OVERRUN;
      }
      SelectStrategy(state, dest);
      status := DGRAMSUCCESS;
    }
  }

  // ---------- the server ----------

  class Server {
    const users: UserList
    const parser: DatagramParser

    constructor (users: UserList)
      ensures this.users == users && fresh(parser)
    {
      this.users := users;
      parser := new DatagramParser();
    }

    method RunStrategy(data: Mp3pData, stats: Stats) returns (reply: string)
      requires users.Valid() && data.Valid() && data.commandFunction != Unset
      modifies users, users.nodes
      ensures users.Valid()
      ensures users.Contents() == PerformUsers(old(users.Contents()), old(data.headers[..]), old(data.commandFunction))
      ensures reply == PerformReply(old(users.Contents()), stats, old(data.headers[..]), old(data.commandFunction))
    {
      hide UserList.Valid, UserList.Contents, StatusMessage, CAPABILITIES, ListUsersText, Delete, ModifyPassword,
      Insert,
        Find, CString;
      var id := CString(data.headers[..], UNIQUEID_AT);
      var username, password := CString(data.headers[..], USERNAME_AT), CString(data.headers[..], PASSWORD_AT);
      match data.commandFunction {
        case AddUser => reply := AddUserReply(username, password, id);
        case ModifyUserPassword => reply := ModifyUserReply(username, password, id);
        case DeleteUser =>
          users.DeleteUserNode(username);
          reply := StatusMessage(OK, id);
        case ListUsers =>
          var text := ListUsersReply();
          reply := StatusMessage(OK, id) + text;
        case ListCapabilities => reply := StatusMessage(OK, id) + CAPABILITIES;
        case BytesTransfered => reply := StatusMessage(OK, id) + Decimal(stats.transfered);
        case BytesRecieved => reply := StatusMessage(OK, id) + Decimal(stats.recieved);
        case HistoricConnections => reply := StatusMessage(OK, id) + Decimal(stats.historic);
        case ConcurrentConnections => reply := StatusMessage(OK, id) + Decimal(stats.concurrent);
        case BadAuthorization => reply := StatusMessage(BADAUTHORIZATIONFORMATION, id);
        case InvalidCommand => reply := StatusMessage(INVALID_COMMAND_FORMATION, id);
        case Unauthorized => reply := StatusMessage(UNAUTHORIZED, id);
        case VersionMismatch => reply := StatusMessage(WRONG_PROTOCOL_VERSION, id);
      }
    }

    method ListUsersReply() returns (text: string)
      requires users.Valid()
      ensures text == ListUsersText(users.Contents())
    {
      hide Views, UniqueNames;
      text := "";
      var current := users.head;
      ghost var i := 0;
      while current != null
        invariant i <= |users.nodes| && current == NodeAt(users.nodes, i)
        invariant ListUsersText(users.Contents()) == text + ListUsersText(users.Contents()[i..])
        decreases |users.nodes| - i
      {
        ghost var us := users.Contents();
        ghost var line := current.name + " " + current.password + "\n";
        assert us[i] == current.View() && us[i..][0] == us[i] && us[i..][1..] == us[i + 1..];
        assert text + (line + ListUsersText(us[i + 1..])) == (text + line) + ListUsersText(us[i + 1..]);
        text := text + (current.name + " " + current.password + "\n");
        current := current.next;
        i := i + 1;
      }
      assert users.Contents()[i..] == [];
    }

    method ModifyUserReply(username: string, password: string, id: string) returns (reply: string)
      requires users.Valid()
      modifies users, users.nodes
      ensures users.Valid() && users.Contents() == ModifyPassword(old(users.Contents()), username, password)
      ensures reply == StatusMessage(if Find(old(users.Contents()), username).Some? then OK else RESOURCE_NOT_FOUND, id)
    {
      hide UserList.Valid, UserList.Contents, StatusMessage;
      var modified := users.ModifyUserPassword(username, password);
      reply := StatusMessage(if modified then OK else RESOURCE_NOT_FOUND, id);
    }

    method AddUserReply(username: string, password: string, id: string) returns (reply: string)
      requires users.Valid()
      modifies users, users.nodes
      ensures users.Valid()
      ensures var us := old(users.Contents());
              users.Contents() == if Find(us, username).Some? then ModifyPassword(us, username, password)
                                  else Insert(us, username, password)
      ensures reply == StatusMessage(OK, id)
    {
      hide UserList.Valid, UserList.Contents, StatusMessage, Find;
      InsertKeeps(users.Contents(), username, password);
      var inserted := users.InsertUserNode(username, password);
      if !inserted {
        reply := ModifyUserReply(username, password, id);
      } else {
        reply := StatusMessage(OK, id);
      }
    }

    /** The datagram is received into a fixed buffer, a NUL is put after it, and it is parsed and answered into the same
        buffer. `stack`: what the headers hold before. */
    method HandleUdpRequest(received: string, stats: Stats, stack: Headers) returns (reply: Reply)
      requires users.Valid() && |received| <= MAX_UDP_REQUEST_SIZE
      modifies users, users.nodes, parser
      ensures users.Valid()
      ensures (users.Contents(), reply) == Handle(old(users.Contents()), stats, received,
              old(parser.onSuccessCommandState), stack)
    {
      hide UserList.Valid, UserList.Contents, Parse, Scanned, PerformUsers, PerformReply;
      if received == "" {
        return Silent;
      }
      var buffer := new char[MAX_UDP_REQUEST_SIZE + 1];
      forall i | 0 <= i < |received| {
        buffer[i] := received[i];
      }
      buffer[|received|] := '\0';
      assert buffer[..|received| + 1] == received + "\0";
      var data := new Mp3pData(stack);
      AlwaysAStrategy(received, parser.onSuccessCommandState, stack);
      var status := parser.ParseDatagram(buffer, |received| + 1, data);
      match status {
        case DGRAMERROR => reply := Silent;
        case OVERRUN => reply := Unknowable;
        case DGRAMSUCCESS =>
          var text := RunStrategy(data, stats);
          reply := if |text| < buffer.Length then Sent(text) else Unknowable;
      }
    }
  }

  lemma InsertKeeps(us: seq<User>, name: string, password: string)
    ensures Find(us, name).Some? ==> Insert(us, name, password) == us
  {
  }

  // ---------- the monitoring client ----------

  lemma MatchesIs(id: string, d: string)
    requires Terminated(d)
    ensures Matches(id, d[..|d| - 1]) <==>
            Strchr(d, '\n', 0).Some? && IdAgrees(id, d[Strchr(d, '\n', 0).value + 1..])
  {
    assert d == d[..|d| - 1] + "\0";
  }

  /** The loop that compares the id line of a received text with the id of the request; None when there is no id
      line. */
  method CheckValidRequestId(requestId: string, dgramRecieved: string) returns (r: Option<bool>)
    requires IsToken(requestId) && Terminated(dgramRecieved)
    ensures match Strchr(dgramRecieved, '\n', 0)
            case None => r == None
            case Some(p) => r == Some(IdAgrees(requestId, dgramRecieved[p + 1..]))
    ensures r == Some(true) <==> Matches(requestId, dgramRecieved[..|dgramRecieved| - 1])
  {
    hide Matches, Strchr;
    MatchesIs(requestId, dgramRecieved);
    var p := Strchr(dgramRecieved, '\n', 0);
    if p == None {
      return None;
    }
    var line := dgramRecieved[p.value + 1..];
    assert Terminated(line);
    var i := 0;
    while i < IDLENGTH && line[i] != '\n'
      invariant i <= IDLENGTH && i < |line| && line[..i] == requestId[..i]
      invariant LineEnd(line, 0) == LineEnd(line, i)
    {
      if requestId[i] != line[i] {
        return Some(false);
      }
      assert line[..i + 1] == line[..i] + [line[i]] && requestId[..i + 1] == requestId[..i] + [requestId[i]];
      i := i + 1;
    }
    r := Some(true);
  }
}
