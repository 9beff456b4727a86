/** The second pass over a datagram: the texts of its fields, found by searching for separators. */
module DatagramFields {
  import opened Text
  import opened Datagrams
  import opened DatagramGrammar
  import opened DatagramParsing

  // ---------- searching in a text that a NUL ends ----------

  /** strchr from `i` on. */
  function Strchr(t: string, c: char, i: nat): (r: Option<nat>)
    ensures r.Some? ==> i <= r.value < |t| && t[r.value] == c
    decreases |t| - i
  {
    if i >= |t| then None else if t[i] == c then Some(i) else if t[i] == '\0' then None else Strchr(t, c, i + 1)
  }

  /** strrchr from `i` on. */
  function Strrchr(t: string, c: char, i: nat): (r: Option<nat>)
    ensures r.Some? ==> i <= r.value < |t| && t[r.value] == c
    decreases |t| - i
  {
    if i >= |t| || t[i] == '\0' then None
    else var later := Strrchr(t, c, i + 1);
         if later.Some? then later else if t[i] == c then Some(i) else None
  }

  /** The end of the line that `i` is in; nothing stops the search but a newline. */
  function LineEnd(t: string, i: nat): (r: Option<nat>)
    ensures r.Some? ==> i <= r.value < |t| && t[r.value] == '\n'
    decreases |t| - i
  {
    if i >= |t| then None else if t[i] == '\n' then Some(i) else LineEnd(t, i + 1)
  }

  /** The end of the argument that starts at `i`. */
  function ArgumentEnd(t: string, i: nat): (r: Option<nat>)
    ensures r.Some? ==> i <= r.value < |t|
    decreases |t| - i
  {
    if i >= |t| then None else if t[i] == ' ' || t[i] == '\0' then Some(i) else ArgumentEnd(t, i + 1)
  }

  // ---------- the fields ----------

  /** The texts to copy into the headers; None for a field the datagram does not set. */
  datatype Fields = Fields(
    version: string,
    uniqueID: string,
    authorization: string,
    username: Option<string>,
    password: Option<string>)

  /** The text from `i` to its end, if it has one. */
  function Cut(t: string, i: nat, end: Option<nat>): Option<string>
    requires end.Some? ==> i <= end.value <= |t|
  {
    if end.Some? then Some(t[i..end.value]) else None
  }

  function ObtainUsername(t: string, line: nat): Option<string> {
    var p := Strchr(t, ' ', line);
    if p == None then None else Cut(t, p.value + 1, ArgumentEnd(t, p.value + 1))
  }

  function ObtainPassword(t: string, line: nat): Option<string> {
    var p := Strrchr(t, ' ', line);
    if p == None then None else Cut(t, p.value + 1, ArgumentEnd(t, p.value + 1))
  }

  predicate HasUsername(state: Mp3pState) {
    state == DGRAM_MP_COMMAND || state == DGRAM_AU_COMMAND || state == DGRAM_DU_COMMAND
  }

  predicate HasPassword(state: Mp3pState) {
    state == DGRAM_MP_COMMAND || state == DGRAM_AU_COMMAND
  }

  /** The headers with the words the command's state asks for. */
  function WithWords(t: string, command: nat, state: Mp3pState, h: Fields): Option<Fields> {
    var user := if HasUsername(state) then ObtainUsername(t, command) else None;
    var password := if HasPassword(state) then ObtainPassword(t, command) else None;
    if (HasUsername(state) && user == None) || (HasPassword(state) && password == None) then None
    else Some(h.(username := user, password := password))
  }

  /** The texts that copyDgramData copies; None when a search leaves the datagram. */
  function CopiedTexts(t: string, state: Mp3pState): Option<Fields> {
    var v := Strchr(t, 'V', 0);
    if v == None then None else
    var e1 := LineEnd(t, v.value);
    if e1 == None then None else
    var e2 := LineEnd(t, e1.value + 1);
    if e2 == None then None else
    var e3 := LineEnd(t, e2.value + 1);
    if e3 == None then None else
    WithWords(t, e3.value + 1, state,
              Fields(t[v.value..e1.value], t[e1.value + 1..e2.value], t[e2.value + 1..e3.value], None, None))
  }

  // ---------- searches that find what was printed ----------

  lemma {:induction false} LineEndIs(t: string, i: nat, j: nat)
    requires i <= j < |t| && t[j] == '\n' && forall k | i <= k < j :: t[k] != '\n'
    ensures LineEnd(t, i) == Some(j)
    decreases j - i
  {
    if i < j {
      LineEndIs(t, i + 1, j);
    }
  }

  lemma {:induction false} StrchrIs(t: string, c: char, i: nat, j: nat)
    requires i <= j < |t| && t[j] == c && forall k | i <= k < j :: t[k] != c && t[k] != '\0'
    ensures Strchr(t, c, i) == Some(j)
    decreases j - i
  {
    if i < j {
      StrchrIs(t, c, i + 1, j);
    }
  }

  lemma {:induction false} StrrchrIs(t: string, c: char, i: nat, j: nat, e: nat)
    requires i <= j < e < |t| && t[j] == c && c != '\0' && t[e] == '\0'
    requires forall k | i <= k < e :: t[k] != '\0'
    requires forall k | j < k < e :: t[k] != c
    ensures Strrchr(t, c, i) == Some(j)
    decreases e - i
  {
    if i < j {
      StrrchrIs(t, c, i + 1, j, e);
    } else {
      StrrchrNone(t, c, i + 1, e);
    }
  }

  lemma {:induction false} StrrchrNone(t: string, c: char, i: nat, e: nat)
    requires i <= e < |t| && t[e] == '\0' && forall k | i <= k < e :: t[k] != '\0' && t[k] != c
    ensures Strrchr(t, c, i) == None
    decreases e - i
  {
    if i < e {
      StrrchrNone(t, c, i + 1, e);
    }
  }

  lemma {:induction false} ArgumentEndIs(t: string, i: nat, j: nat)
    requires i <= j < |t| && (t[j] == ' ' || t[j] == '\0') && forall k | i <= k < j :: IsWordByte(t[k])
    ensures ArgumentEnd(t, i) == Some(j)
    decreases j - i
  {
    if i < j {
      ArgumentEndIs(t, i + 1, j);
    }
  }

  lemma {:induction false} LineEndFrom(t: string, i: nat)
    ensures LineEnd(t, i).Some? <==> exists k :: i <= k < |t| && t[k] == '\n'
    decreases |t| - i
  {
    if i < |t| && t[i] != '\n' {
      LineEndFrom(t, i + 1);
    }
  }

  /** Version and id are found in a printed head. */
  lemma HeadFields(t: string, version: string, id: string, rest: string)
    requires HeadOk(version, id) && t == PrintHead(version, id) + rest && Terminated(rest)
    ensures var e1 := 5 + |version|;
            var e2 := e1 + 1 + IDLENGTH;
            && e2 + 1 <= |t| && Strchr(t, 'V', 0) == Some(5) && LineEnd(t, 5) == Some(e1)
              && LineEnd(t, e1 + 1) == Some(e2)
            && t[5..e1] == version && t[e1 + 1..e2] == id && t[e2 + 1..] == rest
  {
    hide Strchr, LineEnd;
    var e1 := 5 + |version|;
    var e2 := e1 + 1 + IDLENGTH;
    HeadPieces(t, version, id, rest);
    HeadBytes(version, id);
    assert forall k | 5 <= k < e1 :: t[k] == version[k - 5];
    assert forall k | e1 + 1 <= k < e2 :: t[k] == id[k - e1 - 1];
    assert forall k | 0 <= k < 5 :: t[k] == "MP3P "[k];
    StrchrIs(t, 'V', 0, 5);
    LineEndIs(t, 5, e1);
    LineEndIs(t, e1 + 1, e2);
  }

  lemma HeadPieces(t: string, version: string, id: string, rest: string)
    requires |id| == IDLENGTH && t == PrintHead(version, id) + rest
    ensures var e1 := 5 + |version|;
            var e2 := e1 + 1 + IDLENGTH;
            && e2 + 1 <= |t| && t[..5] == "MP3P " && t[5..e1] == version && t[e1] == '\n'
            && t[e1 + 1..e2] == id && t[e2] == '\n' && t[e2 + 1..] == rest
  {
  }

  lemma HeadBytes(version: string, id: string)
    requires HeadOk(version, id)
    ensures |version| >= 4 && version[0] == 'V' && |id| == IDLENGTH
    ensures forall k | 0 <= k < |version| :: version[k] != '\n'
    ensures forall k | 0 <= k < |id| :: id[k] != '\n'
  {
  }

  // ---------- the two passes agree ----------

  function UserOf(c: Command): Option<string> {
    if c.DU? || c.MP? || c.AU? then Some(c.user) else None
  }

  function PasswordOf(c: Command): Option<string> {
    if c.MP? || c.AU? then Some(c.password) else None
  }

  /** The texts a datagram of each form holds. */
  function TextsOf(f: Form): Option<Fields> {
    match f
    case Good(v, id, key, c) => Some(Fields(v, id, key, UserOf(c), PasswordOf(c)))
    case Unknown(v, id, key, _) => Some(Fields(v, id, key, None, None))
    case NoKey(v, id, rest) =>
      (match LineEnd(rest, 0)
       case Some(e) => Some(Fields(v, id, rest[..e], None, None))
       case None => None)
    case _ => None
  }

  /** First-space and last-space searches find the words the automaton read. */
  lemma CommandFields(t: string, p: nat, c: Command)
    requires ValidCommand(c) && p <= |t| && t[p..] == PrintCommand(c) + "\0"
    ensures UserOf(c).Some? ==> ObtainUsername(t, p) == UserOf(c)
    ensures PasswordOf(c).Some? ==> ObtainPassword(t, p) == PasswordOf(c)
  {
    hide Strchr, Strrchr, ArgumentEnd, PrintCommand, IsWord;
    var w := t[p..];
    assert forall k | 0 <= k < |w| :: t[p + k] == w[k];
    match c {
      case DU(u) => OneWordFields(t, p, u);
      case MP(u, q) => TwoWordFields(t, p, c);
      case AU(u, q) => TwoWordFields(t, p, c);
      case _ =>
    }
  }

  lemma SuffixAt(t: string, p: nat, k: nat)
    requires p + k < |t|
    ensures t[p..][k] == t[p + k]
  {
  }

  lemma SuffixSlice(t: string, p: nat, a: nat, b: nat)
    requires a <= b && p + b <= |t|
    ensures t[p..][a..b] == t[p + a..p + b]
  {
  }

  lemma OneWordPieces(w: string, u: string)
    requires w == "DU " + u + "\0"
    ensures |w| == |u| + 4 && w[0] == 'D' && w[1] == 'U' && w[2] == ' ' && w[3..3 + |u|] == u && w[3 + |u|] == '\0'
  {
  }

  lemma WordAt(t: string, b: nat, w: string)
    requires IsWord(w) && b + |w| <= |t| && t[b..b + |w|] == w
    ensures forall k | b <= k < b + |w| :: IsWordByte(t[k])
  {
    forall k | b <= k < b + |w|
      ensures IsWordByte(t[k])
    {
      assert t[k] == w[k - b];
    }
  }

  lemma OneWordFields(t: string, p: nat, u: string)
    requires IsWord(u) && p <= |t| && t[p..] == PrintCommand(DU(u)) + "\0"
    ensures ObtainUsername(t, p) == Some(u)
  {
    hide Strchr, ArgumentEnd, IsWord;
    var w, b := t[p..], p + 3;
    OneWordPieces(w, u);
    SuffixAt(t, p, 0);
    SuffixAt(t, p, 1);
    SuffixAt(t, p, 2);
    SuffixAt(t, p, 3 + |u|);
    SuffixSlice(t, p, 3, 3 + |u|);
    WordAt(t, b, u);
    StrchrIs(t, ' ', p, p + 2);
    ArgumentEndIs(t, b, b + |u|);
  }

  lemma TwoWordText(c: Command)
    requires c.MP? || c.AU?
    ensures PrintCommand(c) + "\0" == TwoLetters(c) + " " + c.user + " " + c.password + "\0" + ""
  {
    assert "MP" + " " == "MP " && "AU" + " " == "AU ";
  }

  lemma TwoWordPieces(t: string, p: nat, c: Command)
    requires (c.MP? || c.AU?) && p <= |t| && t[p..] == PrintCommand(c) + "\0"
    ensures var b := p + 3;
            var m := b + |c.user|;
            var e := m + 1 + |c.password|;
            && |t| == e + 1 && t[p] == TwoLetters(c)[0] && t[p + 1] == TwoLetters(c)[1] && t[p + 2] == ' '
            && t[b..m] == c.user && t[m] == ' ' && t[m + 1..e] == c.password && t[e] == '\0'
  {
    hide PrintCommand, TwoLetters;
    var w := t[p..];
    TwoWordText(c);
    var j := 3 + |c.user|;
    var k := j + 1 + |c.password|;
    assert |TwoLetters(c)| == 2 by {
      LettersNext(c, START);
    }
    TwoArgumentsPieces(w, TwoLetters(c), c.user, c.password, "");
    assert |w[k + 1..]| == 0;
    SuffixSlice(t, p, 0, 2);
    SuffixSlice(t, p, 3, j);
    SuffixSlice(t, p, j + 1, k);
    SuffixAt(t, p, 2);
    SuffixAt(t, p, j);
    SuffixAt(t, p, k);
    assert t[p..p + 2][0] == t[p] && t[p..p + 2][1] == t[p + 1];
  }

  lemma TwoWordFields(t: string, p: nat, c: Command)
    requires (c.MP? || c.AU?) && ValidCommand(c) && p <= |t| && t[p..] == PrintCommand(c) + "\0"
    ensures ObtainUsername(t, p) == Some(c.user) && ObtainPassword(t, p) == Some(c.password)
  {
    hide Strchr, Strrchr, ArgumentEnd, PrintCommand, IsWord;
    TwoWordPieces(t, p, c);
    var b := p + 3;
    var m := b + |c.user|;
    var e := m + 1 + |c.password|;
    WordAt(t, b, c.user);
    WordAt(t, m + 1, c.password);
    StrchrIs(t, ' ', p, p + 2);
    ArgumentEndIs(t, b, m);
    StrrchrIs(t, ' ', p, m, e);
    ArgumentEndIs(t, m + 1, e);
  }

  /** Key and command of a printed datagram. */
  lemma KeyFields(t: string, b: nat, key: string, text: string)
    requires IsToken(key) && b <= |t| && t[b..] == key + "\n" + text
    ensures var e := b + IDLENGTH;
            e < |t| && LineEnd(t, b) == Some(e) && t[b..e] == key && t[e + 1..] == text
  {
    hide LineEnd;
    var w, e := t[b..], b + IDLENGTH;
    assert forall k | 0 <= k < |w| :: t[b + k] == w[k];
    assert w[..IDLENGTH] == key && w[IDLENGTH] == '\n' && w[IDLENGTH + 1..] == text;
    assert t[b..e] == w[..IDLENGTH] && t[e + 1..] == w[IDLENGTH + 1..];
    assert forall k | b <= k < e :: t[k] == key[k - b];
    LineEndIs(t, b, e);
  }

  lemma {:induction false} LineEndShift(t: string, b: nat, i: nat)
    requires b <= i <= |t|
    ensures LineEnd(t, i) == match LineEnd(t[b..], i - b) case Some(e) => Some(b + e) case None => None
    decreases |t| - i
  {
    if i < |t| {
      assert t[b..][i - b] == t[i];
      LineEndShift(t, b, i + 1);
    }
  }

  lemma {:induction false} LineEndOfFirst(rest: string, i: nat)
    requires i <= |rest|
    ensures LineEnd(rest + "\0", i) == LineEnd(rest, i)
    decreases |rest| - i
  {
    if i < |rest| {
      LineEndOfFirst(rest, i + 1);
    }
  }

  /** The second pass finds the texts of the form that the first pass read. */
  lemma TextsFound(d: string, f: Form)
    requires HasForm(d, f) && FormState(f) != DGRAMDISCARD
    ensures CopiedTexts(d + "\0", FormState(f)) == TextsOf(f)
  {
    hide PrintHead, HeadOk, Print, PrintCommand, Strchr, LineEnd, IsToken, TokenLine, ObtainUsername, ObtainPassword,
      CopiedTexts;
    match f {
      case NoKey(v, id, rest) =>
        NoKeyFields(d, v, id, rest);
      case Good(v, id, key, c) =>
        var command := PrintedFields(d, v, id, key, PrintCommand(c));
        CommandFields(d + "\0", command, c);
      case Unknown(v, id, key, text) =>
        var command := PrintedFields(d, v, id, key, text);
    }
  }

  lemma NoKeyFields(d: string, v: string, id: string, rest: string)
    requires HeadOk(v, id) && d == PrintHead(v, id) + rest
    ensures CopiedTexts(d + "\0", DGRAMBADAUTH) ==
            match LineEnd(rest, 0) case Some(e) => Some(Fields(v, id, rest[..e], None, None)) case None => None
  {
    hide PrintHead, HeadOk, Strchr, LineEnd, ObtainUsername, ObtainPassword;
    var t := d + "\0";
    assert t == PrintHead(v, id) + (rest + "\0");
    HeadFields(t, v, id, rest + "\0");
    KeyLineFields(t, 5 + |v| + 1 + IDLENGTH + 1, rest);
  }

  /** The search for the end of the key's line stays in the datagram or leaves it. */
  lemma KeyLineFields(t: string, b: nat, rest: string)
    requires b <= |t| && t[b..] == rest + "\0"
    ensures match LineEnd(rest, 0)
            case Some(e) => LineEnd(t, b) == Some(b + e) && t[b..b + e] == rest[..e]
            case None => LineEnd(t, b) == None
  {
    hide LineEnd;
    LineEndShift(t, b, b);
    LineEndOfFirst(rest, 0);
    match LineEnd(rest, 0) {
      case Some(e) =>
        SuffixSlice(t, b, 0, e);
        assert (rest + "\0")[0..e] == rest[..e];
      case None =>
    }
  }

  /** Version, id and key come back; what is left is the command's text. */
  lemma PrintedFields(d: string, v: string, id: string, key: string, text: string) returns (command: nat)
    requires HeadOk(v, id) && IsToken(key) && d == Print(v, id, key, text)
    ensures var t := d + "\0";
            && command <= |t| && t[command..] == text + "\0"
            && forall state :: CopiedTexts(t, state) == WithWords(t, command, state, Fields(v, id, key, None, None))
  {
    hide Print, PrintHead, HeadOk, Strchr, LineEnd, ObtainUsername, ObtainPassword, IsToken;
    var t := d + "\0";
    var rest := key + "\n" + (text + "\0");
    PrintSplits(v, id, key, text);
    assert t == PrintHead(v, id) + rest;
    HeadFields(t, v, id, rest);
    var b := 5 + |v| + 1 + IDLENGTH + 1;
    KeyFields(t, b, key, text + "\0");
    command := b + IDLENGTH + 1;
  }
}
