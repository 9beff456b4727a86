/** The monitoring client: which replies it takes for the answer to its request. */
module DatagramClient {
  import opened Text
  import opened Users
  import opened Datagrams
  import opened DatagramGrammar
  import opened DatagramParsing
  import opened DatagramFields
  import opened DatagramHeaders
  import opened DatagramReplies

  /** The line after the first newline of a received text agrees with the id up to its end, or up to the id's. */
  predicate IdAgrees(id: string, rest: string) {
    match LineEnd(rest, 0)
    case Some(e) => if e <= IDLENGTH then rest[..e] <= id else rest[..IDLENGTH] == id
    case None => id <= rest
  }

  /** checkValidRequestId on a text that was received and ended with a NUL; a text of one line has no id to check. */
  predicate Matches(id: string, text: string) {
    var t := text + "\0";
    var p := Strchr(t, '\n', 0);
    p.Some? && IdAgrees(id, t[p.value + 1..])
  }

  lemma DecimalDigits(n: nat)
    ensures forall i | 0 <= i < |Decimal(n)| :: IsDigit(Decimal(n)[i])
  {
  }

  /** The id line is the first after the status. */
  lemma ReplyIdLine(code: nat, id: string, more: string)
    requires '\n' !in id
    ensures var t := StatusMessage(code, id) + more;
            && Strchr(t, '\n', 0) == Some(10 + |Decimal(code)|)
            && LineEnd(t[10 + |Decimal(code)| + 1..], 0) == Some(|id|)
            && t[10 + |Decimal(code)| + 1..][..|id|] == id
  {
    hide Decimal, Strchr, LineEnd;
    var n := Decimal(code);
    var t, p := StatusMessage(code, id) + more, 10 + |n|;
    DecimalDigits(code);
    var head := "MP3P V1.0 ";
    assert t == head + n + "\n" + (id + "\n" + more);
    assert t[..10] == head && t[10..p] == n && t[p] == '\n' && t[p + 1..] == id + "\n" + more;
    assert forall k | 0 <= k < 10 :: t[k] == head[k] && head[k] != '\n' && head[k] != '\0';
    assert forall k | 10 <= k < p :: t[k] == n[k - 10];
    StrchrIs(t, '\n', 0, p);
    var rest := t[p + 1..];
    assert rest[..|id|] == id && rest[|id|] == '\n';
    assert forall k | 0 <= k < |id| :: rest[k] == id[k];
    LineEndIs(rest, 0, |id|);
  }

  /** A reply is taken for the answer to a request exactly when its id line and the request's id agree as far as they
      go. */
  lemma ReplyMatches(code: nat, id: string, more: string, requested: string)
    requires '\n' !in id && IsToken(requested)
    ensures Matches(requested, StatusMessage(code, id) + more) <==> id <= requested || requested <= id
  {
    hide Decimal, LineEnd, StatusMessage, Strchr;
    var t := StatusMessage(code, id) + (more + "\0");
    assert StatusMessage(code, id) + more + "\0" == t;
    ReplyIdLine(code, id, more + "\0");
    var rest := t[10 + |Decimal(code)| + 1..];
    if |id| > IDLENGTH {
      assert rest[..IDLENGTH] == rest[..|id|][..IDLENGTH];
    }
  }

  lemma {:induction false} CStringFrom(text: string, i: nat, c: char)
    requires i <= |text| && c !in text
    ensures c !in CString(text, i)
    decreases |text| - i
  {
    if i < |text| {
      CStringFrom(text, i + 1, c);
    }
  }

  lemma StoredIdLine(d: string, f: Form)
    requires HasForm(d, f) && f != NoHead
    ensures '\n' !in StoredId(f) && IsToken(f.id)
  {
    hide Print, PrintHead, PrintCommand;
    if f.NoKey? && |KeyLine(f.rest)| >= AUTHORIZATION_SIZE {
      KeyLineHasNoNewline(f.rest);
      CStringFrom(KeyLine(f.rest)[AUTHORIZATION_SIZE..], 0, '\n');
    }
  }

  lemma KeyLineHasNoNewline(rest: string)
    ensures '\n' !in KeyLine(rest)
  {
    LineEndIsFirst(rest, 0);
    LineEndFrom(rest, 0);
  }

  lemma {:induction false} LineEndIsFirst(t: string, i: nat)
    ensures LineEnd(t, i).Some? ==> forall k | i <= k < LineEnd(t, i).value :: t[k] != '\n'
    decreases |t| - i
  {
    if i < |t| {
      LineEndIsFirst(t, i + 1);
    }
  }

  /** Of all requests that could be waiting, those accept the server's reply whose ids agree with the id that was read
      back. */
  lemma AcceptedExactly(us: seq<User>, stats: Stats, d: string, f: Form, left: Mp3pState, m: Headers, requested: string)
    requires |d| <= MAX_UDP_REQUEST_SIZE && HasForm(d, f) && IsToken(requested)
    ensures var r := Handle(us, stats, d, left, m).1;
            r.Sent? ==> (Matches(requested, r.text) <==> StoredId(f) <= requested || requested <= StoredId(f))
  {
    hide Handle, HasForm, Matches, StatusMessage, StoredId, IsToken, Contained, ListTooLong, Payload, Passwords, Code;
    ReplyExactly(us, stats, d, f, left, m);
    if Handle(us, stats, d, left, m).1.Sent? {
      StoredIdLine(d, f);
      var payload := if Authorized(f) then Payload(us, stats, f.command) else "";
      ReplyMatches(Code(Passwords(us), f), StoredId(f), payload, requested);
    }
  }

  /** The server's reply is taken for the answer to the request it answers, and to no other, if and only if the id
      that is read back begins with the id sent; so it is whenever a malformed key fits its field. */
  lemma OnlyTheSenderAccepts(us: seq<User>, stats: Stats, d: string, f: Form, left: Mp3pState, m: Headers)
    requires |d| <= MAX_UDP_REQUEST_SIZE && HasForm(d, f) && f != NoHead
    ensures var r := Handle(us, stats, d, left, m).1;
            r.Sent? ==>
              ((forall requested | IsToken(requested) :: Matches(requested, r.text) <==> requested == f.id)
               <==> f.id <= StoredId(f))
    ensures (f.NoKey? ==> |KeyLine(f.rest)| < AUTHORIZATION_SIZE) ==> StoredId(f) == f.id
  {
    hide Handle, HasForm, Matches, IsToken, KeyLine;
    StoredIdLine(d, f);
    var r, x := Handle(us, stats, d, left, m).1, StoredId(f);
    if r.Sent? {
      forall requested | IsToken(requested)
        ensures Matches(requested, r.text) <==> x <= requested || requested <= x
      {
        AcceptedExactly(us, stats, d, f, left, m, requested);
      }
      if f.id <= x {
        TokensThatAgree(x, f.id);
      } else if x <= f.id {
        OtherToken(x, f.id);
      }
    }
  }

  lemma TokensThatAgree(x: string, id: string)
    requires IsToken(id) && id <= x
    ensures forall requested | IsToken(requested) :: x <= requested || requested <= x <==> requested == id
  {
    forall requested | IsToken(requested)
      ensures x <= requested || requested <= x <==> requested == id
    {
      assert requested <= x ==> requested == x[..IDLENGTH] == id;
      assert x <= requested ==> |x| == IDLENGTH && x == requested && x == id;
    }
  }

  /** A proper beginning of an id is the beginning of another. */
  lemma OtherToken(x: string, id: string)
    requires IsToken(id) && x <= id && !(id <= x)
    ensures exists other :: IsToken(other) && other != id && x <= other
  {
    var last := IDLENGTH - 1;
    var other := id[last := if id[last] == 'a' then 'b' else 'a'];
    assert IsToken(other) && other[last] != id[last] && x <= other;
  }

  /** Any line that is a beginning of the id is taken for it, an empty one too. */
  lemma ShortIdLineMatches(code: nat, id: string, n: nat, more: string)
    requires IsToken(id) && n <= IDLENGTH
    ensures Matches(id, StatusMessage(code, id[..n]) + more)
  {
    hide StatusMessage, Matches;
    assert '\n' !in id[..n];
    ReplyMatches(code, id[..n], more, id);
  }

  // ---------- what the client prints and what it is told ----------

  /** The options of the client: a wrong version, a wrong key, a malformed key. */
  datatype Options = Options(wrongVersion: bool, badAuthorization: bool, malformedAuthorization: bool)

  function ClientVersion(o: Options): string {
    if o.wrongVersion then "V2.0" else "V1.0"
  }

  function ClientKey(o: Options): string {
    if o.badAuthorization then "C9h2iUZ4sWJY16fDl7Vg5RnH0vN8aQpI"
    else if o.malformedAuthorization then "C9h2iUZ4sWJY16fD"
    else "C9h2iUZ4sWJY16fDl7Vg5RnH0vN8aQpX"
  }

  function ClientDatagram(o: Options, id: string, command: string): string {
    "MP3P " + ClientVersion(o) + "\n" + id + "\n" + ClientKey(o) + "\n" + command
  }

  /** The client's key is malformed. */
  predicate ShortKey(o: Options) {
    o.malformedAuthorization && !o.badAuthorization
  }

  /** What the client can be told for a well-formed command; `unknown`: it changes the password of a user there is
      none of. */
  function ClientStatus(o: Options, unknown: bool): string {
    if ShortKey(o) then "103"
    else if o.wrongVersion then "101"
    else if o.badAuthorization then "100"
    else if unknown then "102"
    else "200"
  }

  lemma CodeTexts()
    ensures Decimal(200) == "200" && Decimal(100) == "100" && Decimal(101) == "101"
    ensures Decimal(102) == "102" && Decimal(103) == "103" && Decimal(104) == "104"
  {
    assert Unsigned(10) == "10" && Unsigned(20) == "20";
  }

  lemma OptionsWellFormed(o: Options)
    ensures IsVersion(ClientVersion(o)) && (ClientVersion(o) == VERSION <==> !o.wrongVersion)
    ensures !ShortKey(o) ==> IsToken(ClientKey(o))
    ensures !ShortKey(o) ==> (ClientKey(o) == AUTHKEY <==> !o.badAuthorization)
  {
    VersionsWellFormed(o);
    KeysWellFormed(o);
  }

  lemma VersionsWellFormed(o: Options)
    ensures IsVersion(ClientVersion(o)) && (ClientVersion(o) == VERSION <==> !o.wrongVersion)
  {
    assert "V2.0"[1] != "V1.0"[1];
  }

  lemma KeysWellFormed(o: Options)
    ensures !ShortKey(o) ==> IsToken(ClientKey(o))
    ensures !ShortKey(o) ==> (ClientKey(o) == AUTHKEY <==> !o.badAuthorization)
  {
    assert "C9h2iUZ4sWJY16fDl7Vg5RnH0vN8aQpI"[31] != "C9h2iUZ4sWJY16fDl7Vg5RnH0vN8aQpX"[31];
  }

  /** The form of what the client prints when its key has the right length. */
  lemma ClientForm(o: Options, id: string, c: Command)
    requires IsToken(id) && ValidCommand(c) && !ShortKey(o)
    ensures HasForm(ClientDatagram(o, id, PrintCommand(c)), Good(ClientVersion(o), id, ClientKey(o), c))
  {
    hide IsVersion, IsToken, PrintCommand, ClientVersion, ClientKey;
    OptionsWellFormed(o);
  }

  lemma ShortKeyForm(o: Options, id: string, text: string)
    requires IsToken(id) && ShortKey(o)
    ensures HasForm(ClientDatagram(o, id, text), NoKey(ClientVersion(o), id, ClientKey(o) + "\n" + text))
    ensures KeyLine(ClientKey(o) + "\n" + text) == ClientKey(o) && '\n' in ClientKey(o) + "\n" + text
  {
    hide IsVersion, ClientVersion;
    OptionsWellFormed(o);
    var rest := ClientKey(o) + "\n" + text;
    assert ClientKey(o) == "C9h2iUZ4sWJY16fD" && rest[16] == '\n';
    if |rest| > IDLENGTH {
      assert rest[..IDLENGTH][16] == '\n';
    }
    assert forall i | 0 <= i < 16 :: rest[i] == ClientKey(o)[i];
    LineEndIs(rest, 0, 16);
    PrintSplitsHead(ClientVersion(o), id, rest);
  }

  lemma PrintSplitsHead(version: string, id: string, rest: string)
    ensures "MP3P " + version + "\n" + id + "\n" + rest == PrintHead(version, id) + rest
  {
  }

  /** What the documentation of the client promises, for every well-formed command that fits: a wrong version is
      answered with 101, a wrong key with 100, a malformed key with 103 whatever the version; without options the
      answer is 200, or 102 when there is no user whose password could be changed. Each answer carries the request's
      id. */
  lemma DocumentedAnswers(us: seq<User>, stats: Stats, o: Options, id: string, c: Command, left: Mp3pState, m: Headers)
    requires IsToken(id) && ValidCommand(c) && |ClientDatagram(o, id, PrintCommand(c))| <= MAX_UDP_REQUEST_SIZE
    requires UserOf(c).Some? ==> |c.user| < 256
    requires PasswordOf(c).Some? ==> |c.password| < 256
    requires c.LU? ==> |ListUsersText(us)| <= 2001
    ensures var r := Handle(us, stats, ClientDatagram(o, id, PrintCommand(c)), left, m).1;
            var line := "MP3P V1.0 " + ClientStatus(o, c.MP? && c.user !in Passwords(us)) + "\n" + id + "\n";
            && r.Sent? && line <= r.text
            && (o != Options(false, false, false) ==> r.text == line)
  {
    hide Handle, HasForm, IsToken, ClientVersion, ClientKey, PrintCommand, Passwords, Decimal, VERSION, AUTHKEY,
      ListUsersText, Payload, ClientDatagram, IsVersion;
    var d := ClientDatagram(o, id, PrintCommand(c));
    CodeTexts();
    OptionsWellFormed(o);
    if ShortKey(o) {
      ShortKeyForm(o, id, PrintCommand(c));
      var f := NoKey(ClientVersion(o), id, ClientKey(o) + "\n" + PrintCommand(c));
      KeyAndVersionSizes(o);
      ReplyExactly(us, stats, d, f, left, m);
      assert Answer(us, stats, f) == StatusMessage(103, id) + "";
    } else {
      ClientForm(o, id, c);
      var f := Good(ClientVersion(o), id, ClientKey(o), c);
      KeyAndVersionSizes(o);
      ReplyExactly(us, stats, d, f, left, m);
    }
  }

  lemma KeyAndVersionSizes(o: Options)
    ensures |ClientVersion(o)| == 4 && |ClientKey(o)| <= 32
  {
  }

  /** A text that is no command is answered with 104 before version and key are looked at. */
  lemma NoCommandAnswer(us: seq<User>, stats: Stats, o: Options, id: string, text: string, left: Mp3pState, m: Headers)
    requires IsToken(id) && !ShortKey(o) && |ClientDatagram(o, id, text)| <= MAX_UDP_REQUEST_SIZE
    requires forall c, rest | ValidCommand(c) :: text + "\0" != PrintCommand(c) + "\0" + rest
    ensures Handle(us, stats, ClientDatagram(o, id, text), left, m).1 == Sent("MP3P V1.0 104\n" + id + "\n")
  {
    hide Handle, ClientVersion, ClientKey, PrintCommand, Decimal, IsVersion;
    CodeTexts();
    OptionsWellFormed(o);
    KeyAndVersionSizes(o);
    var f := Unknown(ClientVersion(o), id, ClientKey(o), text);
    assert HasForm(ClientDatagram(o, id, text), f) by {
      hide IsToken, ShortKey, IdAgrees;
    }
    ReplyExactly(us, stats, ClientDatagram(o, id, text), f, left, m);
    assert "MP3P V1.0 " + "104" + "\n" == "MP3P V1.0 104\n";
    NothingMore(StatusMessage(104, id));
  }

  predicate NamedAt(i: nat, name: string) {
    && |name| == 2 && i + 3 < |CAPABILITIES|
    && CAPABILITIES[i] == '\n' && CAPABILITIES[i + 1] == name[0] && CAPABILITIES[i + 2] == name[1]
    && CAPABILITIES[i + 3] == '\n'
  }

  /** The answer to LC names the two letters of every command, each on a line of its own. */
  lemma CapabilitiesAreComplete(c: Command)
    ensures exists i :: NamedAt(i, TwoLetters(c))
  {
    match c
    case BT => assert NamedAt(9, TwoLetters(c));
    case BR => assert NamedAt(12, TwoLetters(c));
    case CC => assert NamedAt(15, TwoLetters(c));
    case HC => assert NamedAt(18, TwoLetters(c));
    case DU(_) => assert NamedAt(21, TwoLetters(c));
    case AU(_, _) => assert NamedAt(24, TwoLetters(c));
    case MP(_, _) => assert NamedAt(27, TwoLetters(c));
    case LU => assert NamedAt(30, TwoLetters(c));
    case LC => assert NamedAt(33, TwoLetters(c));
  }
}
