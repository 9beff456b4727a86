/** The registered users on values: the list the server walks, and the map it stands for. */
module Users {
  import opened Text

  datatype User = User(name: string, password: string, connected: bool)

  /** The first user of that name. */
  function Find(us: seq<User>, name: string): Option<User> {
    if us == [] then None else if us[0].name == name then Some(us[0]) else Find(us[1..], name)
  }

  /** Looks at every user, not only at the first of that name. */
  predicate ValidPassword(us: seq<User>, name: string, password: string) {
    exists i :: 0 <= i < |us| && us[i].name == name && us[i].password == password
  }

  predicate IsConnected(us: seq<User>, name: string) {
    Find(us, name).Some? && Find(us, name).value.connected
  }

  /** The list with `f` applied to the first user of that name. */
  function Change(us: seq<User>, name: string, f: User -> User): seq<User> {
    if us == [] then [] else if us[0].name == name then [f(us[0])] + us[1..] else [us[0]] + Change(us[1..], name, f)
  }

  function WithConnected(connected: bool): User -> User {
    (u: User) => u.(connected := connected)
  }

  function WithPassword(password: string): User -> User {
    (u: User) => u.(password := password)
  }

  function ToggleConnected(us: seq<User>, name: string, connected: bool): seq<User> {
    Change(us, name, WithConnected(connected))
  }

  function ModifyPassword(us: seq<User>, name: string, password: string): seq<User> {
    Change(us, name, WithPassword(password))
  }

  function Insert(us: seq<User>, name: string, password: string): seq<User> {
    if Find(us, name).Some? then us else [User(name, password, false)] + us
  }

  function Delete(us: seq<User>, name: string): seq<User> {
    if us == [] then [] else if us[0].name == name then us[1..] else [us[0]] + Delete(us[1..], name)
  }

  // ---------- the map ----------

  ghost predicate UniqueNames(us: seq<User>) {
    forall i, j | 0 <= i < j < |us| :: us[i].name != us[j].name
  }

  function Passwords(us: seq<User>): map<string, string> {
    if us == [] then map[] else Passwords(us[1..])[us[0].name := us[0].password]
  }

  lemma {:induction false} PasswordsKeys(us: seq<User>, name: string)
    ensures name in Passwords(us) <==> exists i :: 0 <= i < |us| && us[i].name == name
    ensures Find(us, name).Some? <==> name in Passwords(us)
    ensures Find(us, name).Some? ==> Find(us, name).value in us && Find(us, name).value.name == name
  {
    if us != [] {
      PasswordsKeys(us[1..], name);
      if name in Passwords(us[1..]) {
        var i :| 0 <= i < |us[1..]| && us[1..][i].name == name;
        assert us[i + 1].name == name;
      }
      if i :| 0 <= i < |us| && us[i].name == name {
        assert i > 0 ==> us[1..][i - 1].name == name;
      }
    }
  }

  /** With unique names the password accepted for a name is the one the map holds, and no other. */
  lemma {:induction false} ValidPasswordIsLookup(us: seq<User>, name: string, password: string)
    requires UniqueNames(us)
    ensures ValidPassword(us, name, password) <==> name in Passwords(us) && Passwords(us)[name] == password
  {
    if us != [] {
      var rest := us[1..];
      ValidPasswordIsLookup(rest, name, password);
      PasswordsKeys(rest, name);
      if ValidPassword(us, name, password) {
        var i :| 0 <= i < |us| && us[i].name == name && us[i].password == password;
        if i > 0 {
          assert rest[i - 1] == us[i];
        }
      }
      if ValidPassword(rest, name, password) {
        var i :| 0 <= i < |rest| && rest[i].name == name && rest[i].password == password;
        assert us[i + 1] == rest[i];
      }
      if name == us[0].name && us[0].password == password {
        assert us[0].name == name;
      }
    }
  }

  ghost predicate KeepsName(f: User -> User) {
    forall u :: f(u).name == u.name
  }

  lemma {:induction false} ChangeNames(us: seq<User>, name: string, f: User -> User)
    requires KeepsName(f)
    ensures |Change(us, name, f)| == |us|
    ensures forall i | 0 <= i < |us| :: Change(us, name, f)[i].name == us[i].name
  {
    if us != [] && us[0].name != name {
      ChangeNames(us[1..], name, f);
    }
  }

  lemma {:induction false} ChangeFirst(us: seq<User>, name: string, f: User -> User)
    requires KeepsName(f) && UniqueNames(us)
    ensures UniqueNames(Change(us, name, f))
    ensures Passwords(Change(us, name, f)) ==
            if Find(us, name).Some? then Passwords(us)[name := f(Find(us, name).value).password] else Passwords(us)
  {
    ChangeNames(us, name, f);
    if us != [] {
      if us[0].name == name {
        assert ([f(us[0])] + us[1..])[1..] == us[1..];
      } else {
        ChangeFirst(us[1..], name, f);
        assert ([us[0]] + Change(us[1..], name, f))[1..] == Change(us[1..], name, f);
      }
    }
  }

  /** A password change reaches the map's entry although it stops at the first match; for an unknown name nothing
      changes. */
  lemma ModifyUpdatesMap(us: seq<User>, name: string, password: string)
    requires UniqueNames(us)
    ensures var us' := ModifyPassword(us, name, password);
            && UniqueNames(us')
            && Passwords(us') == if name in Passwords(us) then Passwords(us)[name := password] else Passwords(us)
  {
    PasswordsKeys(us, name);
    ChangeFirst(us, name, WithPassword(password));
  }

  lemma ToggleKeepsMap(us: seq<User>, name: string, connected: bool)
    requires UniqueNames(us)
    ensures UniqueNames(ToggleConnected(us, name, connected))
    ensures Passwords(ToggleConnected(us, name, connected)) == Passwords(us)
  {
    ChangeFirst(us, name, WithConnected(connected));
    if Find(us, name).Some? {
      FindUnique(us, name);
    }
  }

  lemma {:induction false} FindUnique(us: seq<User>, name: string)
    requires UniqueNames(us) && Find(us, name).Some?
    ensures name in Passwords(us) && Passwords(us)[name] == Find(us, name).value.password
  {
    if us[0].name != name {
      FindUnique(us[1..], name);
    }
  }

  lemma InsertUpdatesMap(us: seq<User>, name: string, password: string)
    requires UniqueNames(us)
    ensures var us' := Insert(us, name, password);
            && UniqueNames(us')
            && Passwords(us') == if name in Passwords(us) then Passwords(us) else Passwords(us)[name := password]
  {
    PasswordsKeys(us, name);
    if Find(us, name) == None {
      assert ([User(name, password, false)] + us)[1..] == us;
    }
  }

  lemma ConsUnique(u: User, us: seq<User>)
    ensures UniqueNames([u] + us) <==> UniqueNames(us) && forall v | v in us :: v.name != u.name
  {
    var all := [u] + us;
    assert all[0] == u && forall i | 0 <= i < |us| :: all[i + 1] == us[i];
    if UniqueNames(all) {
      forall v | v in us
        ensures v.name != u.name
      {
        var i :| 0 <= i < |us| && us[i] == v;
        assert all[0].name != all[i + 1].name;
      }
      forall i, j | 0 <= i < j < |us|
        ensures us[i].name != us[j].name
      {
        assert all[i + 1].name != all[j + 1].name;
      }
    }
    if UniqueNames(us) && forall v | v in us :: v.name != u.name {
      forall i, j | 0 <= i < j < |all|
        ensures all[i].name != all[j].name
      {
        if i == 0 {
          assert us[j - 1] in us;
        } else {
          assert us[i - 1].name != us[j - 1].name;
        }
      }
    }
  }

  lemma {:induction false} DeleteUpdatesMap(us: seq<User>, name: string)
    requires UniqueNames(us)
    ensures UniqueNames(Delete(us, name))
    ensures Passwords(Delete(us, name)) == Passwords(us) - {name}
    ensures forall u :: u in Delete(us, name) ==> u in us
  {
    hide UniqueNames;
    if us != [] {
      var rest := us[1..];
      assert us == [us[0]] + rest;
      ConsUnique(us[0], rest);
      if us[0].name == name {
        PasswordsKeys(rest, name);
      } else {
        DeleteUpdatesMap(rest, name);
        ConsUnique(us[0], Delete(rest, name));
        assert ([us[0]] + Delete(rest, name))[1..] == Delete(rest, name);
      }
    }
  }

  // ---------- any sequence of changes ----------

  datatype Op =
    | InsertOp(name: string, password: string)
    | DeleteOp(name: string)
    | ModifyOp(name: string, password: string)
    | ToggleOp(name: string, connected: bool)
    | ClearOp

  function Apply(us: seq<User>, op: Op): seq<User> {
    match op
    case InsertOp(n, p) => Insert(us, n, p)
    case DeleteOp(n) => Delete(us, n)
    case ModifyOp(n, p) => ModifyPassword(us, n, p)
    case ToggleOp(n, c) => ToggleConnected(us, n, c)
    case ClearOp => []
  }

  function ApplyAll(us: seq<User>, ops: seq<Op>): seq<User>
    decreases |ops|
  {
    if ops == [] then us else ApplyAll(Apply(us, ops[0]), ops[1..])
  }

  /** The same operations on a map. */
  function MapApply(m: map<string, string>, op: Op): map<string, string> {
    match op
    case InsertOp(n, p) => if n in m then m else m[n := p]
    case DeleteOp(n) => m - {n}
    case ModifyOp(n, p) => if n in m then m[n := p] else m
    case ToggleOp(n, c) => m
    case ClearOp => map[]
  }

  function MapApplyAll(m: map<string, string>, ops: seq<Op>): map<string, string>
    decreases |ops|
  {
    if ops == [] then m else MapApplyAll(MapApply(m, ops[0]), ops[1..])
  }

  lemma ApplyRefines(us: seq<User>, op: Op)
    requires UniqueNames(us)
    ensures UniqueNames(Apply(us, op)) && Passwords(Apply(us, op)) == MapApply(Passwords(us), op)
  {
    match op
    case InsertOp(n, p) => InsertUpdatesMap(us, n, p);
    case DeleteOp(n) => DeleteUpdatesMap(us, n);
    case ModifyOp(n, p) => ModifyUpdatesMap(us, n, p);
    case ToggleOp(n, c) => ToggleKeepsMap(us, n, c);
    case ClearOp =>
  }

  lemma {:induction false} ApplyAllRefines(us: seq<User>, ops: seq<Op>)
    requires UniqueNames(us)
    ensures UniqueNames(ApplyAll(us, ops)) && Passwords(ApplyAll(us, ops)) == MapApplyAll(Passwords(us), ops)
    decreases |ops|
  {
    if ops != [] {
      ApplyRefines(us, ops[0]);
      ApplyAllRefines(Apply(us, ops[0]), ops[1..]);
    }
  }

  /** After any sequence of changes a password is accepted exactly when the map holds it. */
  lemma ListRefinesMap(ops: seq<Op>, name: string, password: string)
    ensures var us, m := ApplyAll([], ops), MapApplyAll(map[], ops);
            && UniqueNames(us)
            && (ValidPassword(us, name, password) <==> name in m && m[name] == password)
  {
    ApplyAllRefines([], ops);
    ValidPasswordIsLookup(ApplyAll([], ops), name, password);
  }
}
