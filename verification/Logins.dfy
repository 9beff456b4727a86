/** Who can log in while others are connected, and while the monitoring protocol changes the users. */
module Logins {
  import opened Text
  import opened Users
  import opened Session
  import Mailbox

  /** A PASS that was welcomed is ToggleOp(name, true); the closing of a slot in which a name was last given to USER is
      ToggleOp(name, false); DU is DeleteOp, MP is ModifyOp, AU is InsertOp of a new name and ModifyOp of an old one. */
  function After(users: seq<User>, events: seq<Op>): seq<User> {
    if events == [] then users else Apply(After(users, events[..|events| - 1]), events[|events| - 1])
  }

  predicate About(e: Op, name: string) {
    e.ClearOp? || e.name == name
  }

  /** Is that name registered, as the last event that says so tells, or as it was before all of them? */
  predicate Registered(events: seq<Op>, name: string, before: bool) {
    if events == [] then before
    else
      var e, earlier := events[|events| - 1], events[..|events| - 1];
      if About(e, name) && e.InsertOp? then true
      else if About(e, name) && (e.DeleteOp? || e.ClearOp?) then false
      else Registered(earlier, name, before)
  }

  /** Is that user taken for connected? The last login, closing or deletion of that name says so; a login counts only
      if the name was registered. */
  predicate Occupied(events: seq<Op>, name: string, registered: bool, before: bool) {
    if events == [] then before
    else
      var e, earlier := events[|events| - 1], events[..|events| - 1];
      if About(e, name) && e.ToggleOp? then e.connected && Registered(earlier, name, registered)
      else if About(e, name) && (e.DeleteOp? || e.ClearOp?) then false
      else Occupied(earlier, name, registered, before)
  }

  lemma {:induction false} ChangeSeen(us: seq<User>, name: string, f: User -> User, other: string)
    requires KeepsName(f)
    ensures Find(Change(us, name, f), other) ==
            if other == name && Find(us, name).Some? then Some(f(Find(us, name).value)) else Find(us, other)
  {
    if us != [] && us[0].name != name {
      ChangeSeen(us[1..], name, f, other);
    }
  }

  lemma {:induction false} DeleteSeen(us: seq<User>, name: string, other: string)
    requires UniqueNames(us)
    ensures Find(Delete(us, name), other) == if other == name then None else Find(us, other)
  {
    if us != [] {
      assert us == [us[0]] + us[1..];
      ConsUnique(us[0], us[1..]);
      if us[0].name == name {
        NotFound(us[1..], name);
      } else {
        DeleteSeen(us[1..], name, other);
      }
    }
  }

  lemma {:induction false} NotFound(us: seq<User>, name: string)
    requires forall u | u in us :: u.name != name
    ensures Find(us, name) == None
  {
    if us != [] {
      assert us[0] in us && forall u | u in us[1..] :: u in us;
      NotFound(us[1..], name);
    }
  }

  lemma ApplySeen(us: seq<User>, e: Op, name: string)
    requires UniqueNames(us)
    ensures Find(Apply(us, e), name).Some? <==>
            if About(e, name) && e.InsertOp? then true
            else if About(e, name) && (e.DeleteOp? || e.ClearOp?) then false
            else Find(us, name).Some?
    ensures IsConnected(Apply(us, e), name) <==>
            if About(e, name) && e.ToggleOp? then e.connected && Find(us, name).Some?
            else if About(e, name) && (e.DeleteOp? || e.ClearOp?) then false
            else IsConnected(us, name)
  {
    hide UniqueNames, Delete, Change;
    match e
    case InsertOp(n, p) =>
    case DeleteOp(n) => DeleteSeen(us, n, name);
    case ModifyOp(n, p) => ChangeSeen(us, n, WithPassword(p), name);
    case ToggleOp(n, c) => ChangeSeen(us, n, WithConnected(c), name);
    case ClearOp =>
  }

  lemma {:induction false} AfterSeen(us: seq<User>, events: seq<Op>, name: string)
    requires UniqueNames(us)
    ensures UniqueNames(After(us, events))
    ensures Find(After(us, events), name).Some? <==> Registered(events, name, Find(us, name).Some?)
    ensures IsConnected(After(us, events), name) <==>
            Occupied(events, name, Find(us, name).Some?, IsConnected(us, name))
  {
    hide UniqueNames, Apply, IsConnected, Find;
    if events != [] {
      var e, earlier := events[|events| - 1], events[..|events| - 1];
      AfterSeen(us, earlier, name);
      ApplySeen(After(us, earlier), e, name);
      ApplyRefines(After(us, earlier), e);
    }
  }

  lemma {:induction false} AfterIsApplyAll(us: seq<User>, events: seq<Op>)
    ensures After(us, events) == ApplyAll(us, events)
    decreases |events|
  {
    hide Apply;
    if events != [] {
      ApplyAllLast(us, events[..|events| - 1], events[|events| - 1]);
      AfterIsApplyAll(us, events[..|events| - 1]);
      assert events[..|events| - 1] + [events[|events| - 1]] == events;
    }
  }

  lemma {:induction false} ApplyAllLast(us: seq<User>, events: seq<Op>, e: Op)
    ensures ApplyAll(us, events + [e]) == Apply(ApplyAll(us, events), e)
    decreases |events|
  {
    hide Apply;
    if events == [] {
      assert events + [e] == [e] && [e][1..] == [];
      assert ApplyAll(us, [e]) == ApplyAll(Apply(us, e), []);
    } else {
      assert (events + [e])[0] == events[0] && (events + [e])[1..] == events[1..] + [e];
      ApplyAllLast(Apply(us, events[0]), events[1..], e);
    }
  }

  // ---------- logging in ----------

  /** PASS and the closing of a slot act on the flags as the events say. */
  lemma EventsHappen(c: Conn, password: string, env: Env)
    requires CanExecute(c)
    ensures var h := CheckValidPassword(c, password, env);
            h.users == if h.conn.out == c.out + WELCOME then Apply(env.users, ToggleOp(c.username, true)) else env.users
    ensures CloseClient(c, env.users).users ==
            if c.open then Apply(env.users, ToggleOp(c.username, false)) else env.users
  {
    hide ValidPassword, IsConnected, ToggleConnected, Mailbox.InitCache;
    PassAnswers(c, password, env);
  }

  lemma PassAnswers(c: Conn, password: string, env: Env)
    requires CanExecute(c)
    ensures var h := CheckValidPassword(c, password, env);
            var welcome := ValidPassword(env.users, c.username, password) && !IsConnected(env.users, c.username);
            && (h.conn.out == c.out + WELCOME <==> welcome)
            && h.users == (if welcome then ToggleConnected(env.users, c.username, true) else env.users)
  {
    hide ValidPassword, IsConnected, ToggleConnected, Mailbox.InitCache;
    var h := CheckValidPassword(c, password, env);
    assert (c.out + WELCOME)[|c.out|] == WELCOME[0] == '+';
    assert (c.out + ALREADY_CONNECTED)[|c.out|] == ALREADY_CONNECTED[0] == '-';
    assert (c.out + AUTHENTICATION_FAILED)[|c.out|] == AUTHENTICATION_FAILED[0] == '-';
  }

  /** A login is welcomed exactly when the password is the one that inserts, deletions and password changes have left,
      and of the logins with that name, the closings of slots with that name, authenticated or not, and the deletions
      of that name, a login was not the last. */
  lemma LoginSucceedsExactly(us: seq<User>, events: seq<Op>, c: Conn, password: string, env: Env)
    requires UniqueNames(us) && CanExecute(c) && env.users == After(us, events)
    ensures var passwords := MapApplyAll(Passwords(us), events);
            CheckValidPassword(c, password, env).conn.out == c.out + WELCOME <==>
            && c.username in passwords && passwords[c.username] == password
            && !Occupied(events, c.username, Find(us, c.username).Some?, IsConnected(us, c.username))
  {
    hide CheckValidPassword, ValidPassword, IsConnected, Occupied, UniqueNames, Passwords, Apply, MapApply;
    PassAnswers(c, password, env);
    AfterSeen(us, events, c.username);
    AfterIsApplyAll(us, events);
    ApplyAllRefines(us, events);
    ValidPasswordIsLookup(env.users, c.username, password);
  }

  /** So a login is not exclusive: whoever gives the name of a connected user to USER and hangs up lets a second login
      in. */
  lemma NotExclusive(us: seq<User>, stranger: Conn, second: Conn, password: string, env: Env)
    requires UniqueNames(us) && CanExecute(second) && stranger.open && stranger.username == second.username
    requires ValidPassword(us, second.username, password) && env.users == CloseClient(stranger, us).users
    ensures CheckValidPassword(second, password, env).conn.out == second.out + WELCOME
  {
    hide CheckValidPassword, ValidPassword, IsConnected, UniqueNames, Change;
    PassAnswers(second, password, env);
    ApplySeen(us, ToggleOp(stranger.username, false), second.username);
    ToggleKeepsMap(us, stranger.username, false);
    ValidPasswordIsLookup(us, second.username, password);
    ValidPasswordIsLookup(env.users, second.username, password);
  }
}
