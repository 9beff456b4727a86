/** What the byte stuffer does to a whole mail, as a definition by position and as an automaton. */
module Stuffing {
  import opened Text

  // ---------- definition by position ----------

  /** `readFromBuffer` hands on a byte only when it is positive as a signed char. */
  predicate Kept(c: char) {
    0 < c as int < 128
  }

  predicate AtLineStart(body: string, i: nat)
    requires i < |body|
  {
    i == 0 || body[i - 1] == '\n'
  }

  /** A dot that would end the mail if it were sent alone: first in its line, and before a CR or at the end. */
  predicate LoneDot(body: string, i: nat)
    requires i < |body|
  {
    body[i] == '.' && AtLineStart(body, i) && (i + 1 == |body| || body[i + 1] == '\r')
  }

  /** What byte `i` of the mail becomes on the wire. */
  function Piece(body: string, i: nat): string
    requires i < |body|
  {
    if !Kept(body[i]) then "" else if LoneDot(body, i) then ".." else [body[i]]
  }

  function StuffFrom(body: string, i: nat): string
    requires i <= |body|
    decreases |body| - i
  {
    if i == |body| then "" else Piece(body, i) + StuffFrom(body, i + 1)
  }

  /** The whole mail as the client gets it, before the final CRLF.CRLF. */
  function Stuff(body: string): string {
    StuffFrom(body, 0)
  }

  // ---------- the automaton ----------

  datatype ReadState = NEWLINE | DOT | NORMAL | CR

  function Next(state: ReadState, c: char): ReadState {
    if c == '\r' then CR
    else if c == '\n' then NEWLINE
    else if c == '.' && state == NEWLINE then DOT
    else NORMAL
  }

  /** Everything still to come out of the automaton when `body` and then the end of the file go in. */
  function Transduce(state: ReadState, body: string): string
    decreases |body|, state == DOT
  {
    if body == "" then
      if state == DOT then "." else ""
    else if state == DOT && body[0] == '\r' then
      "." + Transduce(NORMAL, body)
    else
      (if Kept(body[0]) then [body[0]] else "") + Transduce(Next(state, body[0]), body[1..])
  }

  /** The state the automaton is in after the first `i` bytes of `body`, told from the last two of them. */
  ghost predicate StateAt(body: string, i: nat, state: ReadState)
    requires i <= |body|
  {
    && (state == NEWLINE <==> i == 0 || body[i - 1] == '\n')
    && (state == DOT <==> i > 0 && body[i - 1] == '.' && AtLineStart(body, i - 1))
  }

  lemma NextStateAt(body: string, i: nat, state: ReadState)
    requires i < |body| && StateAt(body, i, state)
    ensures StateAt(body, i + 1, Next(state, body[i]))
  {
  }

  /** The extra dot of byte `i - 1`, if it is a lone dot. */
  function Extra(body: string, i: nat): string
    requires i <= |body|
  {
    if i > 0 && LoneDot(body, i - 1) then "." else ""
  }

  lemma StuffByte(body: string, i: nat)
    requires i < |body|
    ensures StuffFrom(body, i) ==
            (if Kept(body[i]) then [body[i]] else "") + (Extra(body, i + 1) + StuffFrom(body, i + 1))
  {
    var kept := if Kept(body[i]) then [body[i]] else "";
    assert Piece(body, i) == kept + Extra(body, i + 1);
    assert (kept + Extra(body, i + 1)) + StuffFrom(body, i + 1) == kept + (Extra(body, i + 1) + StuffFrom(body, i + 1));
  }

  lemma TransduceByte(body: string, i: nat, state: ReadState)
    requires i < |body| && StateAt(body, i, state)
    ensures Transduce(state, body[i..]) ==
            Extra(body, i) + ((if Kept(body[i]) then [body[i]]
              else "") + Transduce(Next(state, body[i]), body[i + 1..]))
  {
    var s := body[i..];
    assert s[0] == body[i] && s[1..] == body[i + 1..];
  }

  lemma {:induction false} TransduceIsStuffFrom(body: string, i: nat, state: ReadState)
    requires i <= |body| && StateAt(body, i, state)
    ensures Transduce(state, body[i..]) == Extra(body, i) + StuffFrom(body, i)
    decreases |body| - i
  {
    if i < |body| {
      hide StateAt, Extra, Transduce, StuffFrom, Kept, Next;
      NextStateAt(body, i, state);
      TransduceIsStuffFrom(body, i + 1, Next(state, body[i]));
      TransduceByte(body, i, state);
      StuffByte(body, i);
    }
  }

  /** The automaton run over a whole mail doubles exactly the lone dots and drops exactly the bytes that are not
      kept. */
  lemma TransduceIsStuff(body: string)
    ensures Transduce(NEWLINE, body) == Stuff(body)
  {
    TransduceIsStuffFrom(body, 0, NEWLINE);
    assert body[0..] == body;
  }
}
