/** What the client can recover from a stuffed mail: where it ends, and what it was. */
module Framing {
  import opened Text
  import opened Stuffing

  const TERMINATOR: string := "\r\n.\r\n"

  // ---------- the mail ends where the server says it ends ----------

  predicate TerminatorAt(s: string, q: nat) {
    q + 5 <= |s| && s[q] == '\r' && s[q + 1] == '\n' && s[q + 2] == '.' && s[q + 3] == '\r' && s[q + 4] == '\n'
  }

  /** One line: its only LF is its last character, after a CR. */
  predicate IsLine(s: string) {
    |s| >= 2 && s[|s| - 2] == '\r' && forall i | 0 <= i < |s| :: s[i] == '\n' <==> i == |s| - 1
  }

  /** A client that stops at the first CRLF.CRLF after `head` reads exactly the stuffed mail. */
  ghost predicate Framed(head: string, body: string) {
    forall q: nat | TerminatorAt(head + Stuff(body) + TERMINATOR, q) :: q == |head| + |Stuff(body)|
  }

  function KeptOf(s: string): string {
    if s == "" then "" else (if Kept(s[0]) then [s[0]] else "") + KeptOf(s[1..])
  }

  predicate EndsLine(s: string) {
    s == "" || (|s| >= 2 && s[|s| - 2] == '\r' && s[|s| - 1] == '\n')
  }

  predicate StartsLine(s: string) {
    s == "" || (|s| >= 2 && s[0] == '\r' && s[1] == '\n')
  }

  /** A dot the stuffer does not double, though dropping the bytes that are not kept leaves it alone in its line. */
  predicate ExposedDot(body: string, i: nat)
    requires i < |body|
  {
    && body[i] == '.' && !LoneDot(body, i)
    && EndsLine(KeptOf(body[..i])) && StartsLine(KeptOf(body[i + 1..]))
  }

  function StuffTo(body: string, i: nat): string
    requires i <= |body|
  {
    if i == 0 then "" else StuffTo(body, i - 1) + Piece(body, i - 1)
  }

  lemma {:induction false} StuffSplit(body: string, i: nat)
    requires i <= |body|
    ensures Stuff(body) == StuffTo(body, i) + StuffFrom(body, i)
  {
    hide Piece;
    if i > 0 {
      StuffSplit(body, i - 1);
      var before, piece, after := StuffTo(body, i - 1), Piece(body, i - 1), StuffFrom(body, i);
      assert before + (piece + after) == (before + piece) + after;
    } else {
      assert "" + StuffFrom(body, 0) == StuffFrom(body, 0);
    }
  }

  lemma {:induction false} KeptOfAppend(s: string, c: char)
    ensures KeptOf(s + [c]) == KeptOf(s) + (if Kept(c) then [c] else "")
  {
    hide Kept;
    var t := s + [c];
    if s == "" {
      assert t[0] == c && t[1..] == "" && KeptOf(t[1..]) == "";
    } else {
      assert t[0] == s[0] && t[1..] == s[1..] + [c];
      KeptOfAppend(s[1..], c);
      var first, last := if Kept(s[0]) then [s[0]] else "", if Kept(c) then [c] else "";
      assert first + (KeptOf(s[1..]) + last) == (first + KeptOf(s[1..])) + last;
    }
  }

  lemma {:induction false} KeptOfSame(s: string)
    requires forall i | 0 <= i < |s| :: Kept(s[i])
    ensures KeptOf(s) == s
  {
    if s != "" {
      KeptOfSame(s[1..]);
    }
  }

  ghost predicate SameEnd(out: string, kept: string) {
    && (out == "" <==> kept == "")
    && (out != "" ==> out[|out| - 1] == kept[|kept| - 1])
    && (EndsLine(out) <==> EndsLine(kept))
  }

  ghost predicate SameStart(out: string, kept: string) {
    && (out == "" <==> kept == "")
    && (out != "" ==> out[0] == kept[0])
    && (StartsLine(out) <==> StartsLine(kept))
  }

  lemma SameEndAppend(out: string, kept: string, c: char)
    requires SameEnd(out, kept)
    ensures SameEnd(out + [c], kept + [c])
    ensures SameEnd(out + "..", kept + ".")
  {
    assert (out + [c])[|out|] == c && (kept + [c])[|kept|] == c;
    assert (out + "..")[|out| + 1] == '.' && (kept + ".")[|kept|] == '.';
  }

  lemma SameStartPrepend(out: string, kept: string, c: char)
    requires SameStart(out, kept)
    ensures SameStart([c] + out, [c] + kept)
    ensures SameStart(".." + out, "." + kept)
  {
  }

  lemma SameEndNothing()
    ensures SameEnd("", KeptOf(""))
  {
  }

  /** Stuffing doubles only dots, so what has been sent so far ends a line exactly when the kept bytes do. */
  lemma {:induction false} StuffToEnds(body: string, i: nat)
    requires i <= |body|
    ensures SameEnd(StuffTo(body, i), KeptOf(body[..i]))
  {
    hide SameEnd, KeptOf;
    if i == 0 {
      SameEndNothing();
    } else {
      StuffToEnds(body, i - 1);
      assert body[..i] == body[..i - 1] + [body[i - 1]];
      KeptOfAppend(body[..i - 1], body[i - 1]);
      SameEndAppend(StuffTo(body, i - 1), KeptOf(body[..i - 1]), body[i - 1]);
      assert StuffTo(body, i - 1) + "" == StuffTo(body, i - 1) && KeptOf(body[..i - 1]) + "" == KeptOf(body[..i - 1]);
    }
  }

  lemma {:induction false} StuffFromStarts(body: string, i: nat)
    requires i <= |body|
    ensures SameStart(StuffFrom(body, i), KeptOf(body[i..]))
    decreases |body| - i
  {
    if i < |body| {
      StuffFromStarts(body, i + 1);
      assert body[i..][0] == body[i] && body[i..][1..] == body[i + 1..];
      SameStartPrepend(StuffFrom(body, i + 1), KeptOf(body[i + 1..]), body[i]);
    }
  }

  /** Every byte on the wire comes from one byte of the mail. */
  lemma {:induction false} Origin(body: string, i: nat, k: nat) returns (j: nat)
    requires i <= |body| && |StuffTo(body, i)| <= k < |Stuff(body)|
    ensures j < |body| && |StuffTo(body, j)| <= k < |StuffTo(body, j)| + |Piece(body, j)|
    decreases |body| - i
  {
    StuffSplit(body, i);
    if k < |StuffTo(body, i)| + |Piece(body, i)| {
      j := i;
    } else {
      j := Origin(body, i + 1, k);
    }
  }

  lemma LineThenEnds(head: string, before: string)
    requires IsLine(head)
    ensures head + before != "" && (EndsLine(head + before) <==> EndsLine(before))
  {
    var s := head + before;
    if before != "" {
      assert s[|s| - 1] == before[|before| - 1];
      assert s[|s| - 2] == if |before| == 1 then head[|head| - 1] else before[|before| - 2];
    } else {
      assert s == head;
    }
  }

  lemma StartsThenTerminator(after: string)
    ensures after + TERMINATOR != "" && (StartsLine(after + TERMINATOR) <==> StartsLine(after))
  {
    var s := after + TERMINATOR;
    if after != "" {
      assert s[0] == after[0];
      assert s[1] == if |after| == 1 then TERMINATOR[0] else after[1];
    } else {
      assert s == TERMINATOR;
    }
  }

  lemma JoinTerminator(head: string, before: string, after: string)
    requires IsLine(head) && EndsLine(before) && StartsLine(after)
    ensures |head + before| >= 2 && TerminatorAt(head + (before + "." + after) + TERMINATOR, |head + before| - 2)
  {
    LineThenEnds(head, before);
    StartsThenTerminator(after);
    var a, b := head + before, after + TERMINATOR;
    var s := a + "." + b;
    assert s[|a| - 2] == a[|a| - 2] && s[|a| - 1] == a[|a| - 1] && s[|a|] == '.' && s[|a| + 1] == b[0]
           && s[|a| + 2] == b[1];
    assert head + (before + "." + after) + TERMINATOR == s;
  }

  lemma SplitAround(before: string, piece: string, after: string, q: nat)
    requires |before| >= 2 && |after| >= 2 && TerminatorAt(before + piece + after, q)
    requires |piece| == 1 || piece == ".."
    requires |before| <= q + 2 < |before| + |piece|
    ensures piece == "." && EndsLine(before) && StartsLine(after)
  {
    var s := before + piece + after;
    assert forall j | 0 <= j < |before| :: s[j] == before[j];
    assert forall j | 0 <= j < |piece| :: s[|before| + j] == piece[j];
    assert forall j | 0 <= j < |after| :: s[|before| + |piece| + j] == after[j];
  }

  lemma SplitTerminator(head: string, before: string, piece: string, after: string, q: nat)
    requires IsLine(head) && TerminatorAt(head + (before + (piece + after)) + TERMINATOR, q)
    requires |piece| == 1 || piece == ".."
    requires |head + before| <= q + 2 < |head + before| + |piece|
    ensures piece == "." && EndsLine(before) && StartsLine(after)
  {
    assert head + (before + (piece + after)) + TERMINATOR == (head + before) + piece + (after + TERMINATOR);
    SplitAround(head + before, piece, after + TERMINATOR, q);
    LineThenEnds(head, before);
    StartsThenTerminator(after);
  }

  lemma StuffAround(body: string, i: nat)
    requires i < |body|
    ensures Stuff(body) == StuffTo(body, i) + (Piece(body, i) + StuffFrom(body, i + 1))
  {
    StuffSplit(body, i);
  }

  lemma ExposedDotEndsMail(head: string, body: string, i: nat)
    requires IsLine(head) && i < |body| && ExposedDot(body, i)
    ensures !Framed(head, body)
  {
    hide StuffTo, StuffFrom, Stuff, KeptOf, Framed, TerminatorAt, EndsLine, StartsLine, IsLine;
    var before, after := StuffTo(body, i), StuffFrom(body, i + 1);
    StuffAround(body, i);
    StuffToEnds(body, i);
    StuffFromStarts(body, i + 1);
    JoinTerminator(head, before, after);
    assert before + ("." + after) == before + "." + after;
    assert |Stuff(body)| == |before| + 1 + |after|;
    NotFramed(head, body, |head + before| - 2);
  }

  lemma NotFramed(head: string, body: string, q: nat)
    requires TerminatorAt(head + Stuff(body) + TERMINATOR, q) && q < |head| + |Stuff(body)|
    ensures !Framed(head, body)
  {
  }

  /** A dot of an early terminator is on the wire between the status line and the end of the mail. */
  lemma EarlyTerminatorInBody(head: string, stuffed: string, q: nat)
    requires IsLine(head) && TerminatorAt(head + stuffed + TERMINATOR, q) && q != |head| + |stuffed|
    ensures |head| <= q + 2 < |head| + |stuffed|
  {
    var stream := head + stuffed + TERMINATOR;
    assert stream[|head| + |stuffed|] == '\r';
    assert forall j | 0 <= j < |head| :: stream[j] == head[j];
  }

  lemma EarlyTerminatorIsExposedDot(head: string, body: string, q: nat) returns (i: nat)
    requires IsLine(head) && TerminatorAt(head + Stuff(body) + TERMINATOR, q)
    requires q != |head| + |Stuff(body)|
    ensures i < |body| && ExposedDot(body, i)
  {
    EarlyTerminatorInBody(head, Stuff(body), q);
    i := Origin(body, 0, q + 2 - |head|);
    var before, piece, after := StuffTo(body, i), Piece(body, i), StuffFrom(body, i + 1);
    StuffAround(body, i);
    SplitTerminator(head, before, piece, after, q);
    StuffToEnds(body, i);
    StuffFromStarts(body, i + 1);
  }

  /** Section 3 of RFC 1939: the mail is framed, unless dropped bytes expose a dot that was not doubled. */
  lemma FramedExactly(head: string, body: string)
    requires IsLine(head)
    ensures Framed(head, body) <==> forall i | 0 <= i < |body| :: !ExposedDot(body, i)
  {
    if i: nat :| i < |body| && ExposedDot(body, i) {
      ExposedDotEndsMail(head, body, i);
    } else {
      forall q: nat | TerminatorAt(head + Stuff(body) + TERMINATOR, q)
        ensures q == |head| + |Stuff(body)|
      {
        if q != |head| + |Stuff(body)| {
          var i := EarlyTerminatorIsExposedDot(head, body, q);
        }
      }
    }
  }

  /** In particular a mail of seven-bit text is always framed, even when it starts or ends with a lone dot. */
  lemma TextIsFramed(head: string, body: string)
    requires IsLine(head) && forall i | 0 <= i < |body| :: Kept(body[i])
    ensures Framed(head, body)
  {
    forall i | 0 <= i < |body|
      ensures !ExposedDot(body, i)
    {
      KeptOfSame(body[..i]);
      KeptOfSame(body[i + 1..]);
    }
    FramedExactly(head, body);
  }

  /** A mail made of a dot and a byte above 127 reads as an empty mail. */
  lemma EightBitBreaksFraming(head: string)
    requires IsLine(head)
    ensures !Framed(head, ".\U{0080}")
  {
    var body := ".\U{0080}";
    assert body[1..] == "\U{0080}";
    assert KeptOf(body[..0]) == "" && KeptOf(body[1..]) == "";
    ExposedDotEndsMail(head, body, 0);
  }

  // ---------- the mail the client recovers ----------

  /** Where a client is: at the start of a line, behind a CR, or inside a line. */
  datatype ReadingState = LINESTART | AFTERCR | INLINE

  /** A line ends with CRLF; `bareLF` says that the client takes an LF alone for an end as well. */
  function NextReading(bareLF: bool, k: ReadingState, c: char): ReadingState {
    if c == '\r' then AFTERCR else if c == '\n' && (bareLF || k == AFTERCR) then LINESTART else INLINE
  }

  /** The receiving half of section 3 of RFC 1939: one leading dot is taken off each line that starts with a dot. */
  function UnstuffFrom(bareLF: bool, k: ReadingState, s: string): string
    decreases |s|
  {
    if s == "" then ""
    else if k == LINESTART && s[0] == '.' then UnstuffFrom(bareLF, INLINE, s[1..])
    else [s[0]] + UnstuffFrom(bareLF, NextReading(bareLF, k, s[0]), s[1..])
  }

  function Unstuff(bareLF: bool, s: string): string {
    UnstuffFrom(bareLF, LINESTART, s)
  }

  /** Does the client start a line at byte `i` of the mail? */
  predicate ReadsLineStart(bareLF: bool, body: string, i: nat)
    requires i <= |body|
  {
    i == 0 || (body[i - 1] == '\n' && (bareLF || (i >= 2 && body[i - 2] == '\r')))
  }

  /** Byte `i` survives the trip: it is sent, and if it is a dot that the server finds at the start of a line, it is
      doubled exactly when the client finds it there too. */
  predicate Restorable(bareLF: bool, body: string, i: nat)
    requires i < |body|
  {
    && Kept(body[i])
    && (body[i] == '.' && AtLineStart(body, i) ==> (LoneDot(body, i) <==> ReadsLineStart(bareLF, body, i)))
  }

  predicate AllKept(s: string) {
    forall i | 0 <= i < |s| :: Kept(s[i])
  }

  lemma {:induction false} OutputKept(bareLF: bool, k: ReadingState, state: ReadState, s: string)
    ensures AllKept(Transduce(state, s)) && AllKept(UnstuffFrom(bareLF, k, Transduce(state, s)))
    decreases |s|, state == DOT
  {
    TransduceKept(state, s);
    UnstuffKept(bareLF, k, Transduce(state, s));
  }

  lemma {:induction false} TransduceKept(state: ReadState, s: string)
    ensures AllKept(Transduce(state, s))
    decreases |s|, state == DOT
  {
    if s != "" {
      if state == DOT && s[0] == '\r' {
        TransduceKept(NORMAL, s);
      } else {
        TransduceKept(Next(state, s[0]), s[1..]);
      }
    }
  }

  lemma {:induction false} UnstuffKept(bareLF: bool, k: ReadingState, t: string)
    requires AllKept(t)
    ensures AllKept(UnstuffFrom(bareLF, k, t))
    decreases |t|
  {
    if t != "" {
      UnstuffKept(bareLF, INLINE, t[1..]);
      UnstuffKept(bareLF, NextReading(bareLF, k, t[0]), t[1..]);
    }
  }

  /** Inside a line nothing makes up for a dot that was lost. */
  lemma {:induction false} LostDotStaysLost(bareLF: bool, s: string)
    requires AllKept(s)
    ensures UnstuffFrom(bareLF, INLINE, Transduce(NORMAL, s)) != "." + s
  {
    if s != "" {
      KeptStep(bareLF, INLINE, NORMAL, s);
      var back := UnstuffFrom(bareLF, NextReading(bareLF, INLINE, s[0]), Transduce(Next(NORMAL, s[0]), s[1..]));
      assert ([s[0]] + back)[0] == s[0] && ("." + s)[0] == '.';
      if s[0] == '.' {
        LostDotStaysLost(bareLF, s[1..]);
        assert s == "." + s[1..];
        SameFirst('.', back, s);
      }
    }
  }

  /** One kept byte that is neither a doubled dot nor a dot taken off. */
  lemma KeptStep(bareLF: bool, k: ReadingState, state: ReadState, s: string)
    requires s != "" && Kept(s[0]) && !(state == DOT && s[0] == '\r') && !(k == LINESTART && s[0] == '.')
    ensures UnstuffFrom(bareLF, k, Transduce(state, s)) ==
            [s[0]] + UnstuffFrom(bareLF, NextReading(bareLF, k, s[0]), Transduce(Next(state, s[0]), s[1..]))
  {
    var out := Transduce(Next(state, s[0]), s[1..]);
    assert Transduce(state, s) == [s[0]] + out && ([s[0]] + out)[1..] == out;
  }

  lemma DotTakenOff(bareLF: bool, s: string)
    requires s != "" && s[0] == '.'
    ensures UnstuffFrom(bareLF, LINESTART, Transduce(NEWLINE, s)) == UnstuffFrom(bareLF, INLINE, Transduce(DOT, s[1..]))
  {
    var out := Transduce(DOT, s[1..]);
    assert Transduce(NEWLINE, s) == "." + out && ("." + out)[1..] == out;
  }

  lemma DotDoubled(bareLF: bool, s: string)
    requires s == "" || s[0] == '\r'
    ensures UnstuffFrom(bareLF, INLINE, Transduce(DOT, s)) ==
            "." + if s == "" then "" else "\r" + UnstuffFrom(bareLF, AFTERCR, Transduce(CR, s[1..]))
  {
    if s == "" {
      assert "."[1..] == "";
    } else {
      var out := Transduce(CR, s[1..]);
      assert Transduce(DOT, s) == "." + ("\r" + out);
      assert ("." + ("\r" + out))[1..] == "\r" + out && ("\r" + out)[1..] == out;
    }
  }

  /** The client is where the bytes before `i` lead it. */
  predicate ReadingAt(bareLF: bool, body: string, i: nat, k: ReadingState)
    requires i <= |body|
  {
    (k == LINESTART <==> ReadsLineStart(bareLF, body, i)) && (k == AFTERCR <==> i > 0 && body[i - 1] == '\r')
  }

  lemma ReadingNext(bareLF: bool, body: string, i: nat, k: ReadingState)
    requires i < |body| && ReadingAt(bareLF, body, i, k)
    ensures ReadingAt(bareLF, body, i + 1, NextReading(bareLF, k, body[i]))
    ensures body[i] == '.' ==> ReadingAt(bareLF, body, i + 1, INLINE)
  {
  }

  /** `owed`: the client has taken off the dot that was sent last. */
  ghost predicate RecoveredFrom(bareLF: bool, k: ReadingState, state: ReadState, owed: bool, s: string) {
    UnstuffFrom(bareLF, k, Transduce(state, s)) == (if owed then "." else "") + s
  }

  lemma SameFirst(c: char, a: string, b: string)
    ensures [c] + a == [c] + b <==> a == b
  {
    assert ([c] + a)[1..] == a && ([c] + b)[1..] == b;
  }

  /** A dot at the start of a line was the last byte. */
  lemma RecoveredAfterDot(bareLF: bool, owed: bool, s: string)
    requires AllKept(s)
    ensures RecoveredFrom(bareLF, INLINE, DOT, owed, s) <==>
            && owed == (s == "" || s[0] == '\r')
            && (s != "" ==>
                  RecoveredFrom(bareLF, NextReading(bareLF, INLINE, s[0]), Next(DOT, s[0]), false, s[1..]))
  {
    if s == "" || s[0] == '\r' {
      DotDoubled(bareLF, s);
      if s != "" {
        var back := UnstuffFrom(bareLF, AFTERCR, Transduce(CR, s[1..]));
        assert s == ['\r'] + s[1..];
        SameFirst('\r', back, s[1..]);
        SameFirst('.', "\r" + back, s);
        assert ("." + ("\r" + back))[0] == '.';
      }
    } else {
      KeptStep(bareLF, INLINE, DOT, s);
      var back := UnstuffFrom(bareLF, NextReading(bareLF, INLINE, s[0]), Transduce(Next(DOT, s[0]), s[1..]));
      assert s == [s[0]] + s[1..];
      SameFirst(s[0], back, s[1..]);
      if s[0] == '.' {
        LostDotStaysLost(bareLF, s[1..]);
        SameFirst('.', back, s);
      }
      assert ([s[0]] + back)[0] == s[0] && ("." + s)[0] == '.';
    }
  }

  lemma RecoveredStep(bareLF: bool, k: ReadingState, state: ReadState, s: string)
    requires s != "" && Kept(s[0]) && state != DOT && (k == LINESTART ==> state == NEWLINE)
    ensures RecoveredFrom(bareLF, k, state, false, s) <==>
            if k == LINESTART && s[0] == '.' then RecoveredFrom(bareLF, INLINE, DOT, true, s[1..])
            else RecoveredFrom(bareLF, NextReading(bareLF, k, s[0]), Next(state, s[0]), false, s[1..])
  {
    assert s == [s[0]] + s[1..];
    if k == LINESTART && s[0] == '.' {
      DotTakenOff(bareLF, s);
    } else {
      KeptStep(bareLF, k, state, s);
      SameFirst(s[0], UnstuffFrom(bareLF, NextReading(bareLF, k, s[0]), Transduce(Next(state, s[0]), s[1..])), s[1..]);
    }
  }

  lemma AtEnd(bareLF: bool, body: string, k: ReadingState, state: ReadState)
    ensures state != DOT ==> RecoveredFrom(bareLF, k, state, false, body[|body|..])
  {
  }

  lemma {:induction false} RoundTripFrom(bareLF: bool, body: string, i: nat, k: ReadingState, state: ReadState,
                                         owed: bool)
    requires i <= |body| && StateAt(body, i, state) && ReadingAt(bareLF, body, i, k) && AllKept(body)
    requires owed <==> state == DOT && ReadsLineStart(bareLF, body, i - 1)
    ensures RecoveredFrom(bareLF, k, state, owed, body[i..]) <==>
            && (state == DOT ==> (owed <==> LoneDot(body, i - 1)))
            && forall j | i <= j < |body| :: Restorable(bareLF, body, j)
    decreases |body| - i
  {
    hide RecoveredFrom, UnstuffFrom;
    var s := body[i..];
    if i == |body| {
      AtEnd(bareLF, body, k, state);
      if state == DOT {
        RecoveredAfterDot(bareLF, owed, s);
      }
    } else {
      assert s[0] == body[i] && s[1..] == body[i + 1..];
      var next := Next(state, s[0]);
      ReadingNext(bareLF, body, i, k);
      if state == DOT {
        RoundTripFrom(bareLF, body, i + 1, NextReading(bareLF, k, s[0]), next, false);
        RecoveredAfterDot(bareLF, owed, s);
        assert Restorable(bareLF, body, i);
      } else {
        RecoveredStep(bareLF, k, state, s);
        var taken := k == LINESTART && s[0] == '.';
        RoundTripFrom(bareLF, body, i + 1, if taken then INLINE else NextReading(bareLF, k, s[0]), next, taken);
        assert Restorable(bareLF, body, i) <==> (next == DOT ==> (taken <==> LoneDot(body, i)));
      }
    }
  }

  /** The client recovers the mail exactly when every byte is sent, every dot behind what the client takes for the end
      of a line stands alone in its line, and no other dot that the server finds at the start of a line does. */
  lemma RoundTripExactly(bareLF: bool, body: string)
    ensures Unstuff(bareLF, Stuff(body)) == body <==> forall i | 0 <= i < |body| :: Restorable(bareLF, body, i)
  {
    TransduceIsStuff(body);
    assert body[0..] == body;
    if AllKept(body) {
      RoundTripFrom(bareLF, body, 0, LINESTART, NEWLINE, false);
    } else {
      OutputKept(bareLF, LINESTART, NEWLINE, body);
      var i :| 0 <= i < |body| && !Kept(body[i]);
      assert !Restorable(bareLF, body, i);
    }
  }

  /** A line that starts with a dot but holds more text loses that dot: the server does not double it. */
  lemma DotWordIsLost(bareLF: bool)
    ensures Unstuff(bareLF, Stuff(".a")) != ".a"
  {
    assert !Restorable(bareLF, ".a", 0);
    RoundTripExactly(bareLF, ".a");
  }

  /** Behind an LF without a CR it is the other way round for a client whose lines end with CRLF: it keeps both dots of
      "x\n..", which the server doubled, and the dot of "x\n.a", which it did not. */
  lemma BareLFConfuses()
    ensures Unstuff(false, Stuff("x\n.")) != "x\n." && Unstuff(true, Stuff("x\n.")) == "x\n."
    ensures Unstuff(false, Stuff("x\n.a")) == "x\n.a" && Unstuff(true, Stuff("x\n.a")) != "x\n.a"
  {
    assert !Restorable(false, "x\n.", 2) && !Restorable(true, "x\n.a", 2);
    hide Unstuff, Stuff;
    RoundTripExactly(false, "x\n.");
    RoundTripExactly(true, "x\n.");
    RoundTripExactly(false, "x\n.a");
    RoundTripExactly(true, "x\n.a");
  }
}
