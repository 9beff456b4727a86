/** Logins while connections come and go and the monitoring protocol changes the users. */
module Histories {
  import opened Text
  import opened Users
  import opened Session
  import opened Replies
  import opened Logins
  import opened Mailbox
  import Datagrams
  import DatagramParsing
  import DatagramHeaders
  import opened DatagramReplies

  /** Something that reaches the users: a PASS that a connection gives, the closing of a slot, or a datagram of some
      form. */
  datatype Happening =
    | PassGiven(c: Conn, password: string, mailbox: seq<string>, stale: MailInfo)
    | SlotClosed(c: Conn)
    | DatagramCame(
        stats: Stats, d: string, form: DatagramParsing.Form, left: Datagrams.Mp3pState, m: DatagramHeaders.Headers)

  /** The dispatcher calls PASS with room for a line; a datagram fits its buffer, and its copies fit the headers. */
  ghost predicate Sound(h: Happening) {
    match h
    case PassGiven(c, _, _, _) => CanExecute(c)
    case SlotClosed(c) => true
    case DatagramCame(_, d, f, _, _) =>
      |d| <= Datagrams.MAX_UDP_REQUEST_SIZE && DatagramParsing.HasForm(d, f) && DatagramHeaders.Contained(f)
  }

  /** The users the server has afterwards. */
  ghost function UsersAfter(us: seq<User>, h: Happening): seq<User>
    requires Sound(h)
  {
    match h
    case PassGiven(c, password, mailbox, stale) => CheckValidPassword(c, password, Env(us, mailbox, stale)).users
    case SlotClosed(c) => CloseClient(c, us).users
    case DatagramCame(stats, d, _, left, m) => Handle(us, stats, d, left, m).0
  }

  /** What that is, as changes of the list. */
  function Changes(us: seq<User>, h: Happening): seq<Op> {
    match h
    case PassGiven(c, password, _, _) =>
      var welcome := ValidPassword(us, c.username, password) && !IsConnected(us, c.username);
      if welcome then [ToggleOp(c.username, true)] else []
    case SlotClosed(c) => if c.open then [ToggleOp(c.username, false)] else []
    case DatagramCame(_, _, f, _, _) => OpsOf(us, f)
  }

  lemma HappeningChanges(us: seq<User>, h: Happening)
    requires Sound(h)
    ensures UsersAfter(us, h) == ApplyAll(us, Changes(us, h))
  {
    hide ValidPassword, IsConnected, ToggleConnected, CheckValidPassword, Handle, OpsOf, DatagramParsing.HasForm,
      DatagramHeaders.Contained, ApplyAll;
    OneOp(us, ClearOp);
    match h
    case PassGiven(c, password, mailbox, stale) =>
      OneOp(us, ToggleOp(c.username, true));
      PassAnswers(c, password, Env(us, mailbox, stale));
    case SlotClosed(c) => OneOp(us, ToggleOp(c.username, false));
    case DatagramCame(stats, d, f, left, m) => UsersAfterExactly(us, stats, d, f, left, m);
  }

  ghost function UsersAll(us: seq<User>, hs: seq<Happening>): seq<User>
    requires forall i | 0 <= i < |hs| :: Sound(hs[i])
  {
    if hs == [] then us else UsersAfter(UsersAll(us, hs[..|hs| - 1]), hs[|hs| - 1])
  }

  ghost function AllChanges(us: seq<User>, hs: seq<Happening>): seq<Op>
    requires forall i | 0 <= i < |hs| :: Sound(hs[i])
  {
    if hs == [] then []
    else AllChanges(us, hs[..|hs| - 1]) + Changes(UsersAll(us, hs[..|hs| - 1]), hs[|hs| - 1])
  }

  lemma {:induction false} AfterAppend(us: seq<User>, a: seq<Op>, b: seq<Op>)
    ensures After(us, a + b) == After(After(us, a), b)
  {
    hide Apply;
    if b == [] {
      assert a + b == a;
    } else {
      var all := a + b;
      assert all[..|all| - 1] == a + b[..|b| - 1] && all[|all| - 1] == b[|b| - 1];
      AfterAppend(us, a, b[..|b| - 1]);
    }
  }

  lemma {:induction false} HistoryChanges(us: seq<User>, hs: seq<Happening>)
    requires forall i | 0 <= i < |hs| :: Sound(hs[i])
    ensures UsersAll(us, hs) == After(us, AllChanges(us, hs))
    decreases |hs|
  {
    hide UsersAfter, Changes, Apply, ApplyAll, Sound;
    if hs != [] {
      var earlier, h := hs[..|hs| - 1], hs[|hs| - 1];
      HistoryChanges(us, earlier);
      var before := UsersAll(us, earlier);
      HappeningChanges(before, h);
      AfterIsApplyAll(before, Changes(before, h));
      AfterAppend(us, AllChanges(us, earlier), Changes(before, h));
    }
  }

  /** After any history of passwords given, slots closed and datagrams answered, a login is welcomed exactly when the
      password is the one that AU, MP and DU have left for that name, and of the welcomed logins, the closings and the
      deletions of that name a login was not the last. */
  lemma LoginInHistory(us: seq<User>, hs: seq<Happening>, c: Conn, password: string, env: Env)
    requires UniqueNames(us) && CanExecute(c) && (forall i | 0 <= i < |hs| :: Sound(hs[i]))
             && env.users == UsersAll(us, hs)
    ensures var changes := AllChanges(us, hs);
            var passwords := MapApplyAll(Passwords(us), changes);
            CheckValidPassword(c, password, env).conn.out == c.out + WELCOME <==>
            && c.username in passwords && passwords[c.username] == password
            && !Occupied(changes, c.username, Find(us, c.username).Some?, IsConnected(us, c.username))
  {
    hide CheckValidPassword, Sound, UniqueNames, UsersAll, AllChanges, MapApplyAll, Occupied, Passwords, IsConnected,
      Find;
    HistoryChanges(us, hs);
    LoginSucceedsExactly(us, AllChanges(us, hs), c, password, env);
  }

  /** A datagram disconnects nobody but a user it deletes, and connects nobody. */
  lemma DatagramKeepsConnections(us: seq<User>, stats: Stats, d: string, f: DatagramParsing.Form,
                                 left: Datagrams.Mp3pState,
                                 m: DatagramHeaders.Headers, name: string)
    requires UniqueNames(us) && |d| <= Datagrams.MAX_UDP_REQUEST_SIZE
    requires DatagramParsing.HasForm(d, f) && DatagramHeaders.Contained(f)
    ensures IsConnected(Handle(us, stats, d, left, m).0, name) <==>
            IsConnected(us, name) && !(Authorized(f) && f.command == Datagrams.DU(name))
  {
    hide Handle, DatagramParsing.HasForm, DatagramHeaders.Contained, UniqueNames, IsConnected, Apply, ApplyAll,
      DatagramHeaders.StoredUser, Find;
    UsersAfterExactly(us, stats, d, f, left, m);
    OneOp(us, ClearOp);
    if OpsOf(us, f) != [] {
      OneOp(us, OpsOf(us, f)[0]);
      ApplySeen(us, OpsOf(us, f)[0], name);
    }
  }
}
