/** The headers of a datagram in memory: fixed fields side by side, filled by copies that do not look where a field
    ends. */
module DatagramHeaders {
  import opened Text
  import opened Datagrams
  import opened DatagramGrammar
  import opened DatagramParsing
  import opened DatagramFields

  // ---------- the layout of mp3p_args_data ----------

  const VERSION_SIZE: nat := 128
  const AUTHORIZATION_SIZE: nat := 512
  const UNIQUEID_SIZE: nat := 256
  const USERNAME_SIZE: nat := 256
  const PASSWORD_SIZE: nat := 256

  const VERSION_AT: nat := 0
  const AUTHORIZATION_AT: nat := VERSION_AT + VERSION_SIZE
  const UNIQUEID_AT: nat := AUTHORIZATION_AT + AUTHORIZATION_SIZE
  const USERNAME_AT: nat := UNIQUEID_AT + UNIQUEID_SIZE
  const PASSWORD_AT: nat := USERNAME_AT + USERNAME_SIZE
  const HEADERS_SIZE: nat := PASSWORD_AT + PASSWORD_SIZE

  /** The bytes of the headers; before the copies they can be anything. */
  type Headers = m: string | |m| == HEADERS_SIZE witness seq(HEADERS_SIZE, _ => '\0')

  /** What a reader of a C string that starts at `i` gets. */
  function CString(m: string, i: nat): string
    decreases |m| - i
  {
    if i >= |m| || m[i] == '\0' then "" else [m[i]] + CString(m, i + 1)
  }

  /** A text and its NUL fit between `at` and the end of the headers. */
  predicate Storable(at: nat, text: string) {
    at + |text| < HEADERS_SIZE
  }

  function Store(m: Headers, at: nat, text: string): Headers
    requires Storable(at, text)
  {
    m[..at] + text + "\0" + m[at + |text| + 1..]
  }

  /** One copy after others; None as soon as one of them leaves the headers. */
  function Put(m: Option<Headers>, at: nat, text: string): Option<Headers> {
    if m.Some? && Storable(at, text) then Some(Store(m.value, at, text)) else None
  }

  /** Version, id and key are copied first, in this order. */
  function StoreThree(m: Headers, version: string, id: string, key: string): Option<Headers> {
    Put(Put(Put(Some(m), VERSION_AT, version), UNIQUEID_AT, id), AUTHORIZATION_AT, key)
  }

  /** Then the words, if there are any. */
  function StoreWords(m: Option<Headers>, username: Option<string>, password: Option<string>): Option<Headers> {
    var m' := if username.Some? then Put(m, USERNAME_AT, username.value) else m;
    if password.Some? then Put(m', PASSWORD_AT, password.value) else m'
  }

  function StoreAll(m: Headers, h: Fields): Option<Headers> {
    StoreWords(StoreThree(m, h.version, h.uniqueID, h.authorization), h.username, h.password)
  }

  // ---------- parseDatagram ----------

  datatype Strategy =
    | BytesTransfered | BytesRecieved | HistoricConnections | ConcurrentConnections | ListUsers | ListCapabilities
    | ModifyUserPassword | DeleteUser | AddUser
    | BadAuthorization | InvalidCommand | Unauthorized | VersionMismatch
    | Unset

  /** The strategy of a datagram that the automaton did not discard. */
  function Choose(state: Mp3pState, version: string, key: string): Strategy {
    if state == DGRAMBADAUTH then BadAuthorization
    else if state == DGRAM_INVALID_COMMAND then InvalidCommand
    else if version != VERSION then VersionMismatch
    else if key != AUTHKEY then Unauthorized
    else match state
      case DGRAM_BT_COMMAND => BytesTransfered
      case DGRAM_BR_COMMAND => BytesRecieved
      case DGRAM_HC_COMMAND => HistoricConnections
      case DGRAM_CC_COMMAND => ConcurrentConnections
      case DGRAM_LU_COMMAND => ListUsers
      case DGRAM_LC_COMMAND => ListCapabilities
      case DGRAM_MP_COMMAND => ModifyUserPassword
      case DGRAM_DU_COMMAND => DeleteUser
      case DGRAM_AU_COMMAND => AddUser
      case _ => Unset
  }

  /** What becomes of a datagram. Overrun: a copy reads on behind the datagram or writes on behind the headers,
      where the model does not follow. */
  datatype Parsed = Discarded | Overrun | Parsed(headers: Headers, strategy: Strategy)

  /** Where the automaton is after the bytes it is given at most. */
  function Scanned(t: string, left: Mp3pState): Scan {
    Run(Scan(START, 0, 0, left), t[..Min(|t|, MAXDATAGRAMLENGTH)])
  }

  /** copyDgramData into headers that held `m` before. */
  function CopyDgramData(t: string, state: Mp3pState, m: Headers): Option<Headers> {
    match CopiedTexts(t, state)
    case None => None
    case Some(h) => StoreAll(m, h)
  }

  /** parseDatagram over the datagram and its NUL. */
  function Parse(t: string, left: Mp3pState, m: Headers): Parsed {
    var state := Scanned(t, left).state;
    if state == DGRAMDISCARD then Discarded
    else match CopyDgramData(t, state, m)
      case None => Overrun
      case Some(m') => Parsed(m', Choose(state, CString(m', VERSION_AT), CString(m', AUTHORIZATION_AT)))
  }

  lemma ScannedIsFinal(d: string, left: Mp3pState)
    requires |d| < MAXDATAGRAMLENGTH
    ensures Scanned(d + "\0", left).state == Final(d, left)
  {
    hide Run;
    var t := d + "\0";
    assert t[..|t|] == t;
  }

  // ---------- what is read back ----------

  /** A text without NULs. */
  predicate NoNul(text: string) {
    forall i | 0 <= i < |text| :: text[i] != '\0'
  }

  /** The bytes from `at` on are the text and a NUL. */
  predicate Holds(m: string, at: nat, text: string) {
    at + |text| < |m| && m[at..at + |text|] == text && m[at + |text|] == '\0'
  }

  lemma {:induction false} CStringOf(m: string, at: nat, text: string)
    requires Holds(m, at, text)
    ensures CString(m, at) == CString(text, 0)
    ensures NoNul(text) ==> CString(text, 0) == text
    decreases |text|
  {
    if text != "" {
      assert m[at] == text[0];
      if text[0] != '\0' {
        var rest := text[1..];
        assert m[at + 1..at + 1 + |rest|] == m[at..at + |text|][1..] == rest;
        CStringOf(m, at + 1, rest);
        CStringTail(text, 1);
        assert NoNul(text) ==> NoNul(rest);
      }
    }
  }

  lemma {:induction false} CStringTail(text: string, i: nat)
    requires i <= |text|
    ensures CString(text, i) == CString(text[i..], 0)
    decreases |text| - i
  {
    CStringTailFrom(text, i, i);
  }

  lemma {:induction false} CStringTailFrom(text: string, b: nat, i: nat)
    requires b <= i <= |text|
    ensures CString(text, i) == CString(text[b..], i - b)
    decreases |text| - i
  {
    if i < |text| {
      assert text[b..][i - b] == text[i];
      CStringTailFrom(text, b, i + 1);
    }
  }

  lemma StoreAt(m: Headers, at: nat, text: string)
    requires Storable(at, text)
    ensures Holds(Store(m, at, text), at, text)
    ensures forall i | 0 <= i < HEADERS_SIZE && !(at <= i <= at + |text|) :: Store(m, at, text)[i] == m[i]
  {
  }

  /** A copy leaves alone what lies wholly in front of it or behind it. */
  lemma StoreKeeps(m: Headers, at: nat, text: string, b: nat, held: string)
    requires Storable(at, text) && Holds(m, b, held) && (b + |held| < at || at + |text| < b)
    ensures Holds(Store(m, at, text), b, held)
  {
    StoreAt(m, at, text);
    var m' := Store(m, at, text);
    assert forall i | b <= i <= b + |held| :: m'[i] == m[i];
    assert m'[b..b + |held|] == m[b..b + |held|];
  }

  /** A copy that starts inside a text, and ends behind where it started, is what goes on there. */
  lemma StoreInside(m: Headers, at: nat, text: string, b: nat, held: string)
    requires Storable(at, text) && Holds(m, b, held) && b <= at <= b + |held|
    ensures Holds(Store(m, at, text), b, held[..at - b] + text)
  {
    StoreAt(m, at, text);
    var m' := Store(m, at, text);
    assert m'[b..at] == m[b..at] == m[b..b + |held|][..at - b];
    assert m'[b..at + |text|] == m'[b..at] + m'[at..at + |text|];
  }

  /** Version, id and key, copied in this order: the key's copy runs into the id, and cuts off a version that ran into
      it. */
  lemma ThreeTexts(m: Headers, v: string, id: string, key: string) returns (m': Headers)
    requires Storable(VERSION_AT, v) && |id| == IDLENGTH && Storable(AUTHORIZATION_AT, key)
    ensures Put(Put(Put(Some(m), VERSION_AT, v), UNIQUEID_AT, id), AUTHORIZATION_AT, key) == Some(m')
    ensures Holds(m', VERSION_AT, if |v| < VERSION_SIZE then v else v[..VERSION_SIZE] + key)
    ensures Holds(m', AUTHORIZATION_AT, key)
    ensures Holds(m', UNIQUEID_AT, if |key| < AUTHORIZATION_SIZE then id else key[AUTHORIZATION_SIZE..])
  {
    hide Holds, Store;
    var m1 := Store(m, VERSION_AT, v);
    StoreAt(m, VERSION_AT, v);
    var m2 := Store(m1, UNIQUEID_AT, id);
    StoreAt(m1, UNIQUEID_AT, id);
    var v' := if |v| < UNIQUEID_AT then v else v[..UNIQUEID_AT] + id;
    if |v| < UNIQUEID_AT {
      StoreKeeps(m1, UNIQUEID_AT, id, VERSION_AT, v);
    } else {
      StoreInside(m1, UNIQUEID_AT, id, VERSION_AT, v);
    }
    m' := Store(m2, AUTHORIZATION_AT, key);
    StoreAt(m2, AUTHORIZATION_AT, key);
    if |v| < VERSION_SIZE {
      StoreKeeps(m2, AUTHORIZATION_AT, key, VERSION_AT, v);
    } else {
      StoreInside(m2, AUTHORIZATION_AT, key, VERSION_AT, v');
      assert v'[..VERSION_SIZE] == v[..VERSION_SIZE];
    }
    if |key| < AUTHORIZATION_SIZE {
      StoreKeeps(m2, AUTHORIZATION_AT, key, UNIQUEID_AT, id);
    } else {
      HoldsTail(m', AUTHORIZATION_AT, key, AUTHORIZATION_SIZE);
    }
  }

  lemma HoldsTail(m: string, at: nat, text: string, n: nat)
    requires Holds(m, at, text) && n <= |text|
    ensures Holds(m, at + n, text[n..])
  {
    assert m[at + n..at + |text|] == m[at..at + |text|][n..];
  }

  /** The words, copied after that: the password's copy cuts off a user name that ran into it. */
  lemma TwoTexts(m: Headers, user: string, password: string) returns (m': Headers)
    requires Storable(USERNAME_AT, user) && Storable(PASSWORD_AT, password)
    ensures Put(Put(Some(m), USERNAME_AT, user), PASSWORD_AT, password) == Some(m')
    ensures Holds(m', USERNAME_AT, StoredUser(user, password)) && Holds(m', PASSWORD_AT, password)
    ensures forall b: nat, held | Holds(m, b, held) && b + |held| < USERNAME_AT :: Holds(m', b, held)
  {
    hide Holds, Store;
    var m1 := Store(m, USERNAME_AT, user);
    StoreAt(m, USERNAME_AT, user);
    m' := Store(m1, PASSWORD_AT, password);
    StoreAt(m1, PASSWORD_AT, password);
    if |user| < USERNAME_SIZE {
      StoreKeeps(m1, PASSWORD_AT, password, USERNAME_AT, user);
    } else {
      StoreInside(m1, PASSWORD_AT, password, USERNAME_AT, user);
    }
    forall b: nat, held | Holds(m, b, held) && b + |held| < USERNAME_AT
      ensures Holds(m', b, held)
    {
      StoreKeeps(m, USERNAME_AT, user, b, held);
      StoreKeeps(m1, PASSWORD_AT, password, b, held);
    }
  }

  /** The user name that is read back when a password is copied behind it. */
  function StoredUser(user: string, password: string): string {
    if |user| < USERNAME_SIZE then user else user[..USERNAME_SIZE] + password
  }

  /** The user name comes back exactly when it fits its field, or when the password happens to be what was cut off. */
  lemma StoredUserExactly(user: string, password: string)
    ensures StoredUser(user, password) == user <==>
            |user| < USERNAME_SIZE || user[USERNAME_SIZE..] == password
  {
    if |user| >= USERNAME_SIZE {
      assert user == user[..USERNAME_SIZE] + user[USERNAME_SIZE..];
      assert StoredUser(user, password)[USERNAME_SIZE..] == password;
    }
  }

  // ---------- the headers of each form ----------

  /** No copy runs off the datagram or off the headers. */
  predicate Contained(f: Form) {
    match f
    case Good(v, _, _, c) =>
      && Storable(VERSION_AT, v)
      && (UserOf(c).Some? ==> Storable(USERNAME_AT, UserOf(c).value))
      && (PasswordOf(c).Some? ==> Storable(PASSWORD_AT, PasswordOf(c).value))
    case Unknown(v, _, _, _) => Storable(VERSION_AT, v)
    case NoKey(v, _, rest) => Storable(VERSION_AT, v) && '\n' in rest && Storable(AUTHORIZATION_AT, KeyLine(rest))
    case _ => true
  }

  /** What stands where a key should be: the text up to the first newline. */
  function KeyLine(rest: string): string {
    var e := LineEnd(rest, 0);
    if e.Some? then rest[..e.value] else rest
  }

  /** The id a reply will carry. */
  function StoredId(f: Form): string {
    match f
    case NoKey(_, id, rest) =>
      if |KeyLine(rest)| < AUTHORIZATION_SIZE then id else CString(KeyLine(rest)[AUTHORIZATION_SIZE..], 0)
    case NoHead => ""
    case _ => f.id
  }

  /** The version that will be compared. */
  function StoredVersion(f: Form): string
    requires f.Good? || f.Unknown?
  {
    if |f.version| < VERSION_SIZE then f.version else f.version[..VERSION_SIZE] + f.key
  }

  lemma PartsNoNul(d: string, f: Form)
    requires HasForm(d, f) && f != NoHead
    ensures IsVersion(f.version) && NoNul(f.version) && NoNul(f.id) && |f.id| == IDLENGTH
    ensures f.Good? || f.Unknown? ==> NoNul(f.key) && IsToken(f.key)
    ensures f.Good? && UserOf(f.command).Some? ==> NoNul(UserOf(f.command).value)
    ensures f.Good? && PasswordOf(f.command).Some? ==> NoNul(PasswordOf(f.command).value)
  {
    hide Print, PrintHead, PrintCommand;
  }

  lemma CutVersionDiffers(v: string, key: string)
    requires IsVersion(v) && IsToken(key) && |v| >= VERSION_SIZE
    ensures v[..VERSION_SIZE] + key != v
  {
    var n := IDLENGTH - 2;
    assert IsAlnum(key[n]) && (v[..VERSION_SIZE] + key)[VERSION_SIZE + n] == key[n];
  }

  /** A version comes back exactly when it fits its field; one that does not is never taken for another. */
  lemma StoredVersionExactly(d: string, f: Form)
    requires HasForm(d, f) && (f.Good? || f.Unknown?)
    ensures StoredVersion(f) == f.version <==> |f.version| < VERSION_SIZE
    ensures StoredVersion(f) == VERSION <==> f.version == VERSION
  {
    hide Print, PrintHead, PrintCommand, HasForm, IsVersion, IsToken;
    PartsNoNul(d, f);
    if |f.version| >= VERSION_SIZE {
      CutVersionDiffers(f.version, f.key);
    }
  }

  /** The user name a command is carried out with. */
  function UserRead(c: Command): string
    requires UserOf(c).Some?
  {
    if PasswordOf(c).Some? then StoredUser(c.user, c.password) else c.user
  }

  /** What the readers of the headers get. */
  predicate ReadsAs(m: Headers, f: Form) {
    && CString(m, UNIQUEID_AT) == StoredId(f)
    && (f.Good? || f.Unknown? ==> CString(m, VERSION_AT) == StoredVersion(f) && CString(m, AUTHORIZATION_AT) == f.key)
    && (f.Good? && UserOf(f.command).Some? ==> CString(m, USERNAME_AT) == UserRead(f.command))
    && (f.Good? && PasswordOf(f.command).Some? ==> CString(m, PASSWORD_AT) == f.command.password)
  }

  lemma ThreeRead(d: string, f: Form, m: Headers, key: string) returns (m': Headers)
    requires HasForm(d, f) && (f.Good? || f.Unknown? || f.NoKey?) && Storable(VERSION_AT, f.version)
    requires Storable(AUTHORIZATION_AT, key) && key == if f.NoKey? then KeyLine(f.rest) else f.key
    ensures StoreAll(m, Fields(f.version, f.id, key, None, None)) == Some(m')
    ensures var v := if |f.version| < VERSION_SIZE then f.version else f.version[..VERSION_SIZE] + key;
            Holds(m', VERSION_AT, v) && Holds(m', AUTHORIZATION_AT, key)
    ensures f.Good? || f.Unknown? ==> Holds(m', UNIQUEID_AT, f.id)
    ensures CString(m', UNIQUEID_AT) == StoredId(f)
  {
    hide HasForm, Holds, Store, CString;
    PartsNoNul(d, f);
    m' := ThreeTexts(m, f.version, f.id, key);
    CStringOf(m', UNIQUEID_AT, if |key| < AUTHORIZATION_SIZE then f.id else key[AUTHORIZATION_SIZE..]);
  }

  lemma VersionAndKeyRead(d: string, f: Form, m: Headers)
    requires HasForm(d, f) && (f.Good? || f.Unknown?)
    requires Holds(m, VERSION_AT, StoredVersion(f)) && Holds(m, AUTHORIZATION_AT, f.key) && Holds(m, UNIQUEID_AT, f.id)
    ensures CString(m, UNIQUEID_AT) == StoredId(f)
    ensures CString(m, VERSION_AT) == StoredVersion(f) && CString(m, AUTHORIZATION_AT) == f.key
  {
    hide HasForm, Holds, CString;
    PartsNoNul(d, f);
    CStringOf(m, VERSION_AT, StoredVersion(f));
    CStringOf(m, AUTHORIZATION_AT, f.key);
    CStringOf(m, UNIQUEID_AT, f.id);
  }

  /** A command with a user and a password. */
  lemma WordsRead(d: string, f: Form, m: Headers) returns (m': Headers)
    requires HasForm(d, f) && f.Good? && PasswordOf(f.command).Some? && Contained(f)
    ensures StoreAll(m, TextsOf(f).value) == Some(m') && ReadsAs(m', f)
  {
    hide HasForm, Holds, Store, CString;
    PartsNoNul(d, f);
    var m3 := ThreeRead(d, f, m, f.key);
    m' := TwoTexts(m3, f.command.user, f.command.password);
    VersionAndKeyRead(d, f, m');
    CStringOf(m', USERNAME_AT, UserRead(f.command));
    CStringOf(m', PASSWORD_AT, f.command.password);
  }

  /** DU. */
  lemma WordRead(d: string, f: Form, m: Headers) returns (m': Headers)
    requires HasForm(d, f) && f.Good? && f.command.DU? && Contained(f)
    ensures StoreAll(m, TextsOf(f).value) == Some(m') && ReadsAs(m', f)
  {
    hide HasForm, Holds, Store, CString;
    PartsNoNul(d, f);
    var user := f.command.user;
    var m3 := ThreeRead(d, f, m, f.key);
    m' := Store(m3, USERNAME_AT, user);
    StoreAt(m3, USERNAME_AT, user);
    StoreKeeps(m3, USERNAME_AT, user, VERSION_AT, StoredVersion(f));
    StoreKeeps(m3, USERNAME_AT, user, AUTHORIZATION_AT, f.key);
    StoreKeeps(m3, USERNAME_AT, user, UNIQUEID_AT, f.id);
    VersionAndKeyRead(d, f, m');
    CStringOf(m', USERNAME_AT, user);
  }

  lemma HeadersRead(d: string, f: Form, m: Headers) returns (m': Headers)
    requires HasForm(d, f) && FormState(f) != DGRAMDISCARD && Contained(f)
    ensures TextsOf(f).Some? && StoreAll(m, TextsOf(f).value) == Some(m') && ReadsAs(m', f)
  {
    hide HasForm, Holds, Store, CString, StoredVersion;
    if f.Good? && PasswordOf(f.command).Some? {
      m' := WordsRead(d, f, m);
    } else if f.Good? && UserOf(f.command).Some? {
      m' := WordRead(d, f, m);
    } else {
      LineEndFound(f);
      PartsNoNul(d, f);
      m' := ThreeRead(d, f, m, if f.NoKey? then KeyLine(f.rest) else f.key);
      if !f.NoKey? {
        VersionIs(f);
        VersionAndKeyRead(d, f, m');
      }
    }
  }

  lemma VersionIs(f: Form)
    requires f.Good? || f.Unknown?
    ensures StoredVersion(f) == if |f.version| < VERSION_SIZE then f.version else f.version[..VERSION_SIZE] + f.key
  {
  }

  lemma LineEndFound(f: Form)
    ensures f.NoKey? ==> ('\n' in f.rest <==> LineEnd(f.rest, 0).Some?)
  {
    if f.NoKey? {
      LineEndFrom(f.rest, 0);
    }
  }

  /** Otherwise one of the copies runs off. */
  lemma CopiesRunOff(f: Form, m: Headers)
    requires FormState(f) != DGRAMDISCARD && !Contained(f)
    ensures TextsOf(f) == None || StoreAll(m, TextsOf(f).value) == None
  {
    hide LineEnd, Store;
    LineEndFound(f);
  }

  /** The strategy a datagram of each form is to select. */
  function StrategyOf(f: Form): Strategy {
    match f
    case Good(v, _, key, c) =>
      if v != VERSION then VersionMismatch else if key != AUTHKEY then Unauthorized else CommandStrategy(c)
    case Unknown(_, _, _, _) => InvalidCommand
    case NoKey(_, _, _) => BadAuthorization
    case _ => Unset
  }

  function CommandStrategy(c: Command): Strategy {
    match c
    case BT => BytesTransfered case BR => BytesRecieved case HC => HistoricConnections case CC => ConcurrentConnections
    case LU => ListUsers case LC => ListCapabilities
    case DU(_) => DeleteUser case MP(_, _) => ModifyUserPassword case AU(_, _) => AddUser
  }

  lemma ChooseStrategy(d: string, f: Form)
    requires HasForm(d, f) && FormState(f) != DGRAMDISCARD
    ensures f.Good? || f.Unknown? ==> Choose(FormState(f), StoredVersion(f), f.key) == StrategyOf(f)
    ensures f.NoKey? ==> forall v, key :: Choose(FormState(f), v, key) == StrategyOf(f)
  {
    hide VERSION, AUTHKEY, HasForm, StoredVersion;
    if f.Good? || f.Unknown? {
      StoredVersionExactly(d, f);
    }
  }

  /** For every datagram that the loop can read to its end and whatever the headers held before: a discarded form is
      discarded, a form whose copies are contained selects its strategy and fills the headers with what `ReadsAs` says,
      and any other runs off. */
  lemma ParseMeaning(d: string, f: Form, left: Mp3pState, m: Headers)
    requires |d| < MAXDATAGRAMLENGTH && HasForm(d, f)
    ensures var r := Parse(d + "\0", left, m);
            if f.NoHead? || f.Trailing? then r == Discarded
            else if !Contained(f) then r == Overrun
            else r.Parsed? && r.strategy == StrategyOf(f) && ReadsAs(r.headers, f)
  {
    hide Final, Scanned, HasForm, CopiedTexts, StoreAll, Contained, TextsOf, StoredVersion, StoredId, UserRead;
    FormDecides(d, f, left);
    ScannedIsFinal(d, left);
    if !f.NoHead? && !f.Trailing? {
      NotDiscarded(f);
      TextsFound(d, f);
      if Contained(f) {
        var m' := HeadersRead(d, f, m);
        ChooseStrategy(d, f);
      } else {
        CopiesRunOff(f, m);
      }
    }
  }

  lemma NotDiscarded(f: Form)
    ensures FormState(f) == DGRAMDISCARD <==> f.NoHead? || f.Trailing?
  {
  }

  /** Every field comes back as it was sent exactly when the version fits its field and so does a user name with a
      password behind it, unless the password is what was cut off. */
  lemma RecoveredExactly(d: string, f: Form, left: Mp3pState, m: Headers)
    requires |d| < MAXDATAGRAMLENGTH && HasForm(d, f) && f.Good?
    ensures var r := Parse(d + "\0", left, m);
            && r.Parsed?
            && CString(r.headers, VERSION_AT) == f.version
            && CString(r.headers, UNIQUEID_AT) == f.id
            && CString(r.headers, AUTHORIZATION_AT) == f.key
            && (UserOf(f.command).Some? ==> CString(r.headers, USERNAME_AT) == f.command.user)
            && (PasswordOf(f.command).Some? ==> CString(r.headers, PASSWORD_AT) == f.command.password)
            <==>
            && Contained(f) && |f.version| < VERSION_SIZE
            && (PasswordOf(f.command).Some? ==>
                  |f.command.user| < USERNAME_SIZE || f.command.user[USERNAME_SIZE..] == f.command.password)
  {
    hide Parse, HasForm, StoredVersion, CString, StoredUser;
    ParseMeaning(d, f, left, m);
    StoredVersionExactly(d, f);
    if PasswordOf(f.command).Some? {
      StoredUserExactly(f.command.user, f.command.password);
    }
  }
}
