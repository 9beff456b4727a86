/** What the server does about a datagram, and how the sender recognises the reply. */
module DatagramReplies {
  import opened Text
  import opened Users
  import opened Datagrams
  import opened DatagramGrammar
  import opened DatagramParsing
  import opened DatagramFields
  import opened DatagramHeaders

  const OK: nat := 200
  const UNAUTHORIZED: nat := 100
  const WRONG_PROTOCOL_VERSION: nat := 101
  const RESOURCE_NOT_FOUND: nat := 102
  const BADAUTHORIZATIONFORMATION: nat := 103
  const INVALID_COMMAND_FORMATION: nat := 104

  type Counter = n: nat | n <= UINT64_MAX

  /** The counters the statistics commands report. */
  datatype Stats = Stats(transfered: Counter, recieved: Counter, historic: Counter, concurrent: Counter)

  function StatusMessage(code: nat, id: string): string {
    "MP3P V1.0 " + Decimal(code) + "\n" + id + "\n"
  }

  function ListUsersText(us: seq<User>): string {
    if us == [] then "" else us[0].name + " " + us[0].password + "\n" + ListUsersText(us[1..])
  }

  const CAPABILITIES: string := "MP3P V1.0\nBT\nBR\nCC\nHC\nDU\nAU\nMP\nLU\nLC\n"

  function ModifyReply(us: seq<User>, user: string): nat {
    if Find(us, user).Some? then OK else RESOURCE_NOT_FOUND
  }

  /** The users a strategy leaves behind. */
  function PerformUsers(us: seq<User>, m: Headers, s: Strategy): seq<User> {
    var user, password := CString(m, USERNAME_AT), CString(m, PASSWORD_AT);
    match s
    case DeleteUser => Delete(us, user)
    case ModifyUserPassword => ModifyPassword(us, user, password)
    case AddUser => if Find(us, user).Some? then ModifyPassword(us, user, password) else Insert(us, user, password)
    case _ => us
  }

  function PerformReply(us: seq<User>, stats: Stats, m: Headers, s: Strategy): string
    requires s != Unset
  {
    var id := CString(m, UNIQUEID_AT);
    match s
    case BytesTransfered => StatusMessage(OK, id) + Decimal(stats.transfered)
    case BytesRecieved => StatusMessage(OK, id) + Decimal(stats.recieved)
    case HistoricConnections => StatusMessage(OK, id) + Decimal(stats.historic)
    case ConcurrentConnections => StatusMessage(OK, id) + Decimal(stats.concurrent)
    case ListUsers => StatusMessage(OK, id) + ListUsersText(us)
    case ListCapabilities => StatusMessage(OK, id) + CAPABILITIES
    case ModifyUserPassword => StatusMessage(ModifyReply(us, CString(m, USERNAME_AT)), id)
    case DeleteUser => StatusMessage(OK, id)
    case AddUser => StatusMessage(OK, id)
    case BadAuthorization => StatusMessage(BADAUTHORIZATIONFORMATION, id)
    case InvalidCommand => StatusMessage(INVALID_COMMAND_FORMATION, id)
    case Unauthorized => StatusMessage(UNAUTHORIZED, id)
    case VersionMismatch => StatusMessage(WRONG_PROTOCOL_VERSION, id)
  }

  /** Unknowable: a copy ran off, or the reply and its NUL ran over the buffer it was printed into. */
  datatype Reply = Silent | Sent(text: string) | Unknowable

  function Send(text: string): Reply {
    if |text| <= MAX_UDP_REQUEST_SIZE then Sent(text) else Unknowable
  }

  /** A datagram that fits the receive buffer always selects a strategy, unless it is discarded or a copy runs off. */
  lemma AlwaysAStrategy(d: string, left: Mp3pState, m: Headers)
    requires |d| < MAXDATAGRAMLENGTH
    ensures Parse(d + "\0", left, m).Parsed? ==> Parse(d + "\0", left, m).strategy != Unset
  {
    hide Parse;
    var f := SomeForm(d);
    ParseMeaning(d, f, left, m);
  }

  /** handleUdpRequest: the users and the reply; `m` is what the headers held before. */
  function Handle(us: seq<User>, stats: Stats, d: string, left: Mp3pState, m: Headers): (seq<User>, Reply)
    requires |d| <= MAX_UDP_REQUEST_SIZE
  {
    if d == "" then (us, Silent) else
    match Parse(d + "\0", left, m)
    case Discarded => (us, Silent)
    case Overrun => (us, Unknowable)
    case Parsed(h, s) =>
      AlwaysAStrategy(d, left, m);
      (PerformUsers(us, h, s), Send(PerformReply(us, stats, h, s)))
  }

  // ---------- who may change users ----------

  /** The right version, the right key and a well-formed command. */
  predicate Authorized(f: Form) {
    f.Good? && f.version == VERSION && f.key == AUTHKEY
  }

  /** The command as it is carried out: with the user name that is read back. */
  function CarriedOut(c: Command): Command {
    match c
    case AU(u, p) => AU(StoredUser(u, p), p)
    case MP(u, p) => MP(StoredUser(u, p), p)
    case _ => c
  }

  /** The password map after a command. */
  function MapAfter(m: map<string, string>, c: Command): map<string, string> {
    match c
    case AU(u, p) => m[u := p]
    case MP(u, p) => if u in m then m[u := p] else m
    case DU(u) => m - {u}
    case _ => m
  }

  /** The code that answers a datagram of each form. */
  function Code(m: map<string, string>, f: Form): nat {
    match f
    case Good(v, _, key, c) =>
      if v != VERSION then WRONG_PROTOCOL_VERSION
      else if key != AUTHKEY then UNAUTHORIZED
      else if c.MP? && CarriedOut(c).user !in m then RESOURCE_NOT_FOUND
      else OK
    case NoKey(_, _, _) => BADAUTHORIZATIONFORMATION
    case _ => INVALID_COMMAND_FORMATION
  }

  /** What follows the status and the id in the reply to an authorised command. */
  function Payload(us: seq<User>, stats: Stats, c: Command): string {
    match c
    case BT => Decimal(stats.transfered)
    case BR => Decimal(stats.recieved)
    case HC => Decimal(stats.historic)
    case CC => Decimal(stats.concurrent)
    case LU => ListUsersText(us)
    case LC => CAPABILITIES
    case _ => ""
  }

  /** The reply each form calls for. */
  function Answer(us: seq<User>, stats: Stats, f: Form): string {
    StatusMessage(Code(Passwords(us), f), StoredId(f)) + if Authorized(f) then Payload(us, stats, f.command) else ""
  }

  lemma NotEmpty(d: string, f: Form)
    requires HasForm(d, f) && f != NoHead
    ensures d != ""
  {
  }

  lemma PerformedExactly(us: seq<User>, m: Headers, f: Form)
    requires UniqueNames(us) && FormState(f) != DGRAMDISCARD && ReadsAs(m, f)
    ensures var us' := PerformUsers(us, m, StrategyOf(f));
            && UniqueNames(us')
            && Passwords(us') ==
               (if Authorized(f) then MapAfter(Passwords(us), CarriedOut(f.command)) else Passwords(us))
            && (!Authorized(f) ==> us' == us)
  {
    hide UniqueNames, Delete, Insert, ModifyPassword, Passwords, CString, StoredUser, StoredId, VERSION, AUTHKEY;
    if Authorized(f) && UserOf(f.command).Some? {
      var user := UserRead(f.command);
      PasswordsKeys(us, user);
      if PasswordOf(f.command).Some? {
        ModifyUpdatesMap(us, user, f.command.password);
        InsertUpdatesMap(us, user, f.command.password);
      } else {
        DeleteUpdatesMap(us, user);
      }
    }
  }

  /** What the handling of a datagram comes to, form by form. */
  lemma Handled(us: seq<User>, stats: Stats, d: string, f: Form, left: Mp3pState, m: Headers)
    requires |d| <= MAX_UDP_REQUEST_SIZE && HasForm(d, f)
    ensures var h := Handle(us, stats, d, left, m);
            if FormState(f) == DGRAMDISCARD then h == (us, Silent)
            else if !Contained(f) then h == (us, Unknowable)
            else exists m' ::
                && ReadsAs(m', f) && StrategyOf(f) != Unset
                && h == (PerformUsers(us, m', StrategyOf(f)), Send(PerformReply(us, stats, m', StrategyOf(f))))
  {
    hide Parse, HasForm, PerformUsers, PerformReply, Contained, ReadsAs, StrategyOf, Send;
    ParseMeaning(d, f, left, m);
    NotDiscarded(f);
    if f != NoHead {
      NotEmpty(d, f);
    }
    AlwaysAStrategy(d, left, m);
  }

  /** Users change by exactly the command of an authorised, well-formed datagram whose copies are contained, carried out
      with the user name that is read back, and by nothing else. */
  lemma UsersChangeExactly(us: seq<User>, stats: Stats, d: string, f: Form, left: Mp3pState, m: Headers)
    requires UniqueNames(us) && |d| <= MAX_UDP_REQUEST_SIZE && HasForm(d, f) && Contained(f)
    ensures var us' := Handle(us, stats, d, left, m).0;
            && UniqueNames(us')
            && Passwords(us') ==
               (if Authorized(f) then MapAfter(Passwords(us), CarriedOut(f.command)) else Passwords(us))
            && (!Authorized(f) ==> us' == us)
  {
    hide HasForm, Handle, PerformUsers, PerformReply, Contained, ReadsAs, UniqueNames, Passwords, MapAfter, CarriedOut,
      StrategyOf, Send;
    Handled(us, stats, d, f, left, m);
    if FormState(f) != DGRAMDISCARD {
      var m' :| ReadsAs(m', f) && StrategyOf(f) != Unset
                && Handle(us, stats, d, left, m) ==
                   (PerformUsers(us, m', StrategyOf(f)), Send(PerformReply(us, stats, m', StrategyOf(f))));
      PerformedExactly(us, m', f);
    } else {
      NotAuthorized(f);
    }
  }

  /** What a datagram does to the users: AU one insertion or one password change, MP one password change, DU one
      deletion, each with the name that is read back; any other datagram nothing. */
  function OpsOf(us: seq<User>, f: Form): seq<Op> {
    if !Authorized(f) then []
    else
      match f.command
      case AU(u, p) =>
        var name := StoredUser(u, p);
        if Find(us, name).Some? then [ModifyOp(name, p)] else [InsertOp(name, p)]
      case MP(u, p) => [ModifyOp(StoredUser(u, p), p)]
      case DU(u) => [DeleteOp(u)]
      case _ => []
  }

  lemma OneOp(us: seq<User>, op: Op)
    ensures ApplyAll(us, [op]) == Apply(us, op) && ApplyAll(us, []) == us
  {
    hide Apply;
    assert [op][1..] == [] && ApplyAll(Apply(us, op), []) == Apply(us, op);
  }

  lemma PerformedOps(us: seq<User>, m: Headers, f: Form)
    requires FormState(f) != DGRAMDISCARD && ReadsAs(m, f)
    ensures PerformUsers(us, m, StrategyOf(f)) == ApplyAll(us, OpsOf(us, f))
  {
    hide Delete, Insert, ModifyPassword, CString, StoredUser, StoredId, VERSION, AUTHKEY, Find, ApplyAll;
    OneOp(us, ClearOp);
    if OpsOf(us, f) != [] {
      OneOp(us, OpsOf(us, f)[0]);
    }
  }

  /** The users after a datagram whose copies are contained, with everything about them. */
  lemma UsersAfterExactly(us: seq<User>, stats: Stats, d: string, f: Form, left: Mp3pState, m: Headers)
    requires |d| <= MAX_UDP_REQUEST_SIZE && HasForm(d, f) && Contained(f)
    ensures Handle(us, stats, d, left, m).0 == ApplyAll(us, OpsOf(us, f))
  {
    hide HasForm, Handle, PerformUsers, PerformReply, Contained, ReadsAs, StrategyOf, Send, OpsOf, ApplyAll;
    Handled(us, stats, d, f, left, m);
    if FormState(f) != DGRAMDISCARD {
      var m' :| ReadsAs(m', f) && StrategyOf(f) != Unset
                && Handle(us, stats, d, left, m) ==
                   (PerformUsers(us, m', StrategyOf(f)), Send(PerformReply(us, stats, m', StrategyOf(f))));
      PerformedOps(us, m', f);
    } else {
      NotAuthorized(f);
      OneOp(us, ClearOp);
      NoOps(us, f);
    }
  }

  lemma NoOps(us: seq<User>, f: Form)
    requires !Authorized(f)
    ensures OpsOf(us, f) == []
  {
  }

  lemma NotAuthorized(f: Form)
    ensures FormState(f) == DGRAMDISCARD ==> !Authorized(f)
  {
  }

  lemma PerformAnswers(us: seq<User>, stats: Stats, m: Headers, f: Form)
    requires FormState(f) != DGRAMDISCARD && ReadsAs(m, f)
    ensures StrategyOf(f) != Unset && PerformReply(us, stats, m, StrategyOf(f)) == Answer(us, stats, f)
  {
    hide Passwords, StatusMessage, ListUsersText, CAPABILITIES, VERSION, AUTHKEY, Decimal, Find, CString, StoredId,
      StoredUser;
    if Authorized(f) && UserOf(f.command).Some? {
      PasswordsKeys(us, UserRead(f.command));
    }
    NothingMore(StatusMessage(Code(Passwords(us), f), StoredId(f)));
  }

  lemma NothingMore(s: string)
    ensures s + "" == s
  {
  }

  /** The list of users is too long for the buffer of the reply. */
  predicate ListTooLong(us: seq<User>, f: Form) {
    Authorized(f) && f.command.LU? && |ListUsersText(us)| > LIST_ROOM
  }

  /** What the status, the id and the NUL leave. */
  const LIST_ROOM: nat := MAX_UDP_REQUEST_SIZE - 47

  /** Discarded datagrams get no reply; every other one whose copies are contained is answered with the code its form
      calls for, the id that is read back, and what was asked for; only the list of users can be too long for that. */
  lemma ReplyExactly(us: seq<User>, stats: Stats, d: string, f: Form, left: Mp3pState, m: Headers)
    requires |d| <= MAX_UDP_REQUEST_SIZE && HasForm(d, f)
    ensures var r := Handle(us, stats, d, left, m).1;
            if f.NoHead? || f.Trailing? then r == Silent
            else if !Contained(f) || ListTooLong(us, f) then r == Unknowable
            else r == Sent(Answer(us, stats, f))
  {
    hide HasForm, Handle, PerformUsers, PerformReply, Answer, Contained, ListTooLong, ReadsAs, StrategyOf;
    Handled(us, stats, d, f, left, m);
    NotDiscarded(f);
    if FormState(f) != DGRAMDISCARD && Contained(f) {
      var m' :| ReadsAs(m', f) && StrategyOf(f) != Unset
                && Handle(us, stats, d, left, m) ==
                   (PerformUsers(us, m', StrategyOf(f)), Send(PerformReply(us, stats, m', StrategyOf(f))));
      PerformAnswers(us, stats, m', f);
      AnswerFits(us, stats, d, f);
    }
  }

  lemma StatusLength(code: nat, id: string)
    requires 100 <= code < 1000
    ensures |StatusMessage(code, id)| == 15 + |id|
  {
    assert |Unsigned(code)| == 3 by {
      assert |Unsigned(code / 10)| == 2;
    }
  }

  lemma {:induction false} CStringLength(text: string, i: nat)
    requires i <= |text|
    ensures |CString(text, i)| <= |text| - i
    decreases |text| - i
  {
    if i < |text| {
      CStringLength(text, i + 1);
    }
  }

  /** The longest id that is read back is what a key line can put there. */
  lemma StoredIdLength(d: string, f: Form)
    requires HasForm(d, f) && f != NoHead && Contained(f)
    ensures |StoredId(f)| == IDLENGTH || (f.NoKey? && |StoredId(f)| < HEADERS_SIZE)
  {
    hide Print, PrintHead, PrintCommand;
    if f.NoKey? && |KeyLine(f.rest)| >= AUTHORIZATION_SIZE {
      CStringLength(KeyLine(f.rest)[AUTHORIZATION_SIZE..], 0);
    }
  }

  lemma AnswerFits(us: seq<User>, stats: Stats, d: string, f: Form)
    requires HasForm(d, f) && FormState(f) != DGRAMDISCARD && Contained(f)
    ensures |Answer(us, stats, f)| <= MAX_UDP_REQUEST_SIZE <==> !ListTooLong(us, f)
  {
    hide HasForm, StatusMessage, Passwords, Decimal, StoredId, Contained, ListUsersText, VERSION, AUTHKEY;
    StoredIdLength(d, f);
    StatusLength(Code(Passwords(us), f), StoredId(f));
    DecimalLength(stats.transfered);
    DecimalLength(stats.recieved);
    DecimalLength(stats.historic);
    DecimalLength(stats.concurrent);
  }

  // ---------- the list of users ----------

  /** What two readers of the same text up to a separator find is the same. */
  lemma {:induction false} SameUpTo(a: string, b: string, c: char, more: string, more': string)
    requires a + [c] + more == b + [c] + more' && c !in a && c !in b
    ensures a == b && more == more'
    decreases |a|
  {
    FirstOf(a, c, more);
    FirstOf(b, c, more');
    if a != "" {
      SameUpTo(a[1..], b[1..], c, more, more');
    }
  }

  lemma FirstOf(a: string, c: char, more: string)
    requires c !in a
    ensures var s := a + [c] + more;
            && s[0] == (if a == "" then c else a[0]) && (a != "" ==> a[0] != c && c !in a[1..])
            && s[1..] == (if a == "" then more else a[1..] + [c] + more)
  {
  }

  /** Name and password can be told apart in a line. */
  predicate Listable(u: User) {
    ' ' !in u.name && '\n' !in u.name && '\n' !in u.password
  }

  predicate AllListable(us: seq<User>) {
    forall i | 0 <= i < |us| :: Listable(us[i])
  }

  /** The names and passwords that were set by MP3P can be. */
  lemma WordsListable(name: string, password: string)
    requires IsWord(name) && IsWord(password)
    ensures Listable(User(name, password, false))
  {
    WordHasNone(name, ' ');
    WordHasNone(name, '\n');
    WordHasNone(password, '\n');
  }

  lemma WordHasNone(w: string, c: char)
    requires IsWord(w) && !IsWordByte(c)
    ensures c !in w
  {
    assert forall i | 0 <= i < |w| :: w[i] != c;
  }

  /** No two different lists of users give the same text. */
  lemma {:induction false} ListingTells(us: seq<User>, vs: seq<User>)
    requires AllListable(us) && AllListable(vs)
    requires ListUsersText(us) == ListUsersText(vs)
    ensures |us| == |vs| && forall i | 0 <= i < |us| :: us[i].name == vs[i].name && us[i].password == vs[i].password
  {
    if us != [] && vs != [] {
      var u, v := us[0], vs[0];
      var more, more' := ListUsersText(us[1..]), ListUsersText(vs[1..]);
      ListLineSplits(u, more);
      ListLineSplits(v, more');
      SameUpTo(u.name, v.name, ' ', u.password + "\n" + more, v.password + "\n" + more');
      SameUpTo(u.password, v.password, '\n', more, more');
      ListingTells(us[1..], vs[1..]);
    } else {
      ListingNotEmpty(us);
      ListingNotEmpty(vs);
    }
  }

  lemma ListingNotEmpty(us: seq<User>)
    ensures ListUsersText(us) == "" <==> us == []
  {
    if us != [] {
      assert |us[0].name + " " + us[0].password + "\n"| > 0;
    }
  }

  lemma ListLineSplits(u: User, more: string)
    ensures u.name + " " + u.password + "\n" + more == u.name + " " + (u.password + "\n" + more)
  {
  }

  lemma {:induction false} ChangeListable(us: seq<User>, name: string, password: string)
    requires AllListable(us) && '\n' !in password
    ensures AllListable(ModifyPassword(us, name, password))
  {
    if us != [] && us[0].name != name {
      ChangeListable(us[1..], name, password);
    }
  }

  lemma {:induction false} DeleteListable(us: seq<User>, name: string)
    requires AllListable(us)
    ensures AllListable(Delete(us, name))
  {
    if us != [] && us[0].name != name {
      DeleteListable(us[1..], name);
    }
  }

  lemma StoredUserIsWord(user: string, password: string)
    requires IsWord(user) && IsWord(password)
    ensures IsWord(StoredUser(user, password))
  {
  }

  lemma CommandWords(d: string, f: Form)
    requires HasForm(d, f) && f.Good?
    ensures UserOf(f.command).Some? ==> IsWord(f.command.user)
    ensures PasswordOf(f.command).Some? ==> IsWord(f.command.password)
  {
    hide Print, PrintCommand, HeadOk, IsToken;
  }

  lemma PerformedListable(us: seq<User>, m: Headers, d: string, f: Form)
    requires AllListable(us) && HasForm(d, f) && FormState(f) != DGRAMDISCARD && ReadsAs(m, f)
    ensures AllListable(PerformUsers(us, m, StrategyOf(f)))
  {
    hide AllListable, HasForm, ModifyPassword, Delete, CString, StoredId, VERSION, AUTHKEY, StoredUser, Listable,
      IsWord;
    if f.Good? && UserOf(f.command).Some? {
      CommandWords(d, f);
      if PasswordOf(f.command).Some? {
        var user, password := UserRead(f.command), f.command.password;
        StoredUserIsWord(f.command.user, password);
        WordHasNone(password, '\n');
        ChangeListable(us, user, password);
        InsertListable(us, user, password);
      } else {
        DeleteListable(us, f.command.user);
      }
    }
  }

  lemma InsertListable(us: seq<User>, name: string, password: string)
    requires AllListable(us) && IsWord(name) && IsWord(password)
    ensures AllListable(Insert(us, name, password))
  {
    WordsListable(name, password);
  }

  /** Users stay listable whatever datagrams come. */
  lemma HandleListable(us: seq<User>, stats: Stats, d: string, f: Form, left: Mp3pState, m: Headers)
    requires AllListable(us) && |d| <= MAX_UDP_REQUEST_SIZE && HasForm(d, f)
    ensures AllListable(Handle(us, stats, d, left, m).0)
  {
    hide HasForm, Handle, PerformUsers, PerformReply, Contained, ReadsAs, StrategyOf, Send, AllListable;
    Handled(us, stats, d, f, left, m);
    if FormState(f) != DGRAMDISCARD && Contained(f) {
      var m' :| ReadsAs(m', f) && StrategyOf(f) != Unset
                && Handle(us, stats, d, left, m) ==
                   (PerformUsers(us, m', StrategyOf(f)), Send(PerformReply(us, stats, m', StrategyOf(f))));
      PerformedListable(us, m', d, f);
    }
  }

  /** The users that a sequence of datagrams, each with what it found in memory, leaves of an empty list. */
  function HandleAll(stats: Stats, ds: seq<(string, Mp3pState, Headers)>): seq<User>
    requires forall i | 0 <= i < |ds| :: |ds[i].0| <= MAX_UDP_REQUEST_SIZE
  {
    if ds == [] then []
    else
      var last := ds[|ds| - 1];
      Handle(HandleAll(stats, ds[..|ds| - 1]), stats, last.0, last.1, last.2).0
  }

  lemma {:induction false} HandleAllListable(stats: Stats, ds: seq<(string, Mp3pState, Headers)>)
    requires forall i | 0 <= i < |ds| :: |ds[i].0| <= MAX_UDP_REQUEST_SIZE
    ensures AllListable(HandleAll(stats, ds))
  {
    hide AllListable, Handle;
    if ds == [] {
      NoneListable();
    } else {
      var last := ds[|ds| - 1];
      HandleAllListable(stats, ds[..|ds| - 1]);
      var f := SomeForm(last.0);
      HandleListable(HandleAll(stats, ds[..|ds| - 1]), stats, last.0, f, last.1, last.2);
    }
  }

  lemma NoneListable()
    ensures AllListable([])
  {
  }

  /** The answer to LU, when there is one, says who the users are and what their passwords are: after any two
      histories of datagrams the same answer to the same request means the same users in the same order. */
  lemma AnswerToLuTells(stats: Stats, ds: seq<(string, Mp3pState, Headers)>, ds': seq<(string, Mp3pState, Headers)>,
                        d: string,
                        f: Form, left: Mp3pState, left': Mp3pState, m: Headers, m': Headers)
    requires forall i | 0 <= i < |ds| :: |ds[i].0| <= MAX_UDP_REQUEST_SIZE
    requires forall i | 0 <= i < |ds'| :: |ds'[i].0| <= MAX_UDP_REQUEST_SIZE
    requires |d| <= MAX_UDP_REQUEST_SIZE && HasForm(d, f) && Authorized(f) && f.command.LU?
    ensures var us, vs := HandleAll(stats, ds), HandleAll(stats, ds');
            var r, r' := Handle(us, stats, d, left, m).1, Handle(vs, stats, d, left', m').1;
            r.Sent? && r == r' ==>
              |us| == |vs| && forall i | 0 <= i < |us| :: us[i].name == vs[i].name && us[i].password == vs[i].password
  {
    hide Handle, HasForm, Contained, AllListable, Listable, StatusMessage, ListUsersText, Passwords, HandleAll, VERSION,
      AUTHKEY;
    var us, vs := HandleAll(stats, ds), HandleAll(stats, ds');
    HandleAllListable(stats, ds);
    HandleAllListable(stats, ds');
    ReplyExactly(us, stats, d, f, left, m);
    ReplyExactly(vs, stats, d, f, left', m');
    if Handle(us, stats, d, left, m).1.Sent? && Handle(us, stats, d, left, m).1 == Handle(vs, stats, d, left', m').1 {
      var line := StatusMessage(OK, f.id);
      assert Answer(us, stats, f) == line + ListUsersText(us) && Answer(vs, stats, f) == line + ListUsersText(vs);
      SameBehind(line, ListUsersText(us), ListUsersText(vs));
      ListingTells(us, vs);
    }
  }

  lemma SameBehind(s: string, a: string, b: string)
    requires s + a == s + b
    ensures a == b
  {
    assert (s + a)[|s|..] == a && (s + b)[|s|..] == b;
  }

  // ---------- setting a password ----------

  /** After an AU with the right version and key the password given is the one that logs its user in, and the only
      one, if and only if all copies are contained and the user name fits its field, unless the password is what was
      cut off from the name or was the user's before. */
  lemma SetPasswordExactly(us: seq<User>, stats: Stats, id: string, user: string, password: string, left: Mp3pState,
                           m: Headers)
    requires UniqueNames(us) && IsToken(id) && IsWord(user) && IsWord(password)
    requires |Print(VERSION, id, AUTHKEY, PrintCommand(AU(user, password)))| <= MAX_UDP_REQUEST_SIZE
    ensures var h := Handle(us, stats, Print(VERSION, id, AUTHKEY, PrintCommand(AU(user, password))), left, m);
            h.1.Sent? && (forall other :: ValidPassword(h.0, user, other) <==> other == password)
            <==>
            && |user| < USERNAME_SIZE + PASSWORD_SIZE && |password| < PASSWORD_SIZE
            && (|user| < USERNAME_SIZE || user[USERNAME_SIZE..] == password || ValidPassword(us, user, password))
  {
    hide Handle, UniqueNames, Passwords, ValidPassword, Print, IsWord, Answer, StoredUser;
    var f := Good(VERSION, id, AUTHKEY, AU(user, password));
    var d := Print(VERSION, id, AUTHKEY, PrintCommand(AU(user, password)));
    assert HasForm(d, f) by {
      ConstantsWellFormed();
    }
    ReplyExactly(us, stats, d, f, left, m);
    if Contained(f) {
      var us' := Handle(us, stats, d, left, m).0;
      UsersChangeExactly(us, stats, d, f, left, m);
      StoredUserExactly(user, password);
      forall other
        ensures ValidPassword(us', user, other) <==>
                if StoredUser(user, password) == user then other == password else ValidPassword(us, user, other)
      {
        ValidPasswordIsLookup(us', user, other);
        ValidPasswordIsLookup(us, user, other);
      }
      OnePassword(us, user, password);
    }
  }

  lemma OnePassword(us: seq<User>, user: string, password: string)
    requires UniqueNames(us)
    ensures ValidPassword(us, user, password) <==> forall other :: ValidPassword(us, user, other) <==> other == password
  {
    hide UniqueNames, ValidPassword;
    forall other
      ensures ValidPassword(us, user, other) <==> user in Passwords(us) && Passwords(us)[user] == other
    {
      ValidPasswordIsLookup(us, user, other);
    }
  }

  lemma ConstantsWellFormed()
    ensures IsVersion(VERSION) && IsToken(AUTHKEY)
  {
  }

  /** LU lists a user that was added in front of those that were there. */
  lemma NewUserListedFirst(us: seq<User>, stats: Stats, d: string, f: Form, left: Mp3pState, m: Headers)
    requires |d| <= MAX_UDP_REQUEST_SIZE && HasForm(d, f) && Contained(f) && Authorized(f) && f.command.AU?
    requires Find(us, CarriedOut(f.command).user) == None
    ensures ListUsersText(Handle(us, stats, d, left, m).0) ==
            CarriedOut(f.command).user + " " + f.command.password + "\n" + ListUsersText(us)
  {
    hide Handle, HasForm, Contained, StoredUser, VERSION, AUTHKEY, Find, ApplyAll;
    UsersAfterExactly(us, stats, d, f, left, m);
    var u := User(CarriedOut(f.command).user, f.command.password, false);
    OneOp(us, InsertOp(u.name, u.password));
    assert ([u] + us)[1..] == us;
  }

  // ---------- inputs that do not fit ----------

  function Letters(n: nat): string {
    seq(n, _ => 'a')
  }

  /** A name of 300 letters and the password p: who can log in is the user of 256 letters and a p. */
  lemma LongNameIsMixed()
    ensures StoredUser(Letters(300), "p") == Letters(256) + "p"
    ensures CarriedOut(AU(Letters(300), "p")) != AU(Letters(300), "p")
  {
    assert Letters(300)[..USERNAME_SIZE] == Letters(256);
    assert |StoredUser(Letters(300), "p")| == 257;
  }

  /** A key line of 600 letters: the reply carries the last 88 of them instead of the id. */
  lemma LongKeyLineReplacesId(v: string, id: string)
    ensures StoredId(NoKey(v, id, Letters(600) + "\n")) == Letters(88)
  {
    var rest := Letters(600) + "\n";
    LineEndIs(rest, 0, 600);
    assert KeyLine(rest) == Letters(600) && Letters(600)[AUTHORIZATION_SIZE..] == Letters(88);
    LettersRead(88);
  }

  lemma LettersRead(n: nat)
    ensures CString(Letters(n), 0) == Letters(n)
  {
    var m := Letters(n) + "\0";
    assert m[0..0 + n] == Letters(n);
    CStringOf(m, 0, Letters(n));
  }

  /** Four users with names of 511 letters, the longest there can be, are too many to list. */
  lemma FourUsersTooLong(us: seq<User>, f: Form)
    requires Authorized(f) && f.command.LU?
    requires |us| == 4 && forall i | 0 <= i < 4 :: |us[i].name| == 511 && us[i].password == "p"
    ensures ListTooLong(us, f)
  {
    assert |ListUsersText(us)| == 514 + |ListUsersText(us[1..])|;
    assert |ListUsersText(us[1..])| == 514 + |ListUsersText(us[2..])| by {
      assert us[1..][1..] == us[2..];
    }
    assert |ListUsersText(us[2..])| == 514 + |ListUsersText(us[3..])| by {
      assert us[2..][1..] == us[3..];
    }
    assert |ListUsersText(us[3..])| >= 514;
  }
}
