/** The streaming stuffer on values: what one add and one get do, and why the way a mail is cut does not matter. */
module Streaming {
  import opened Text
  import opened Stuffing

  const BUFFERSIZE: nat := 512

  /** The bytes waiting in the stuffer, whether the file has ended, and the state of the automaton. */
  datatype Processor = Processor(pending: string, eofReached: bool, state: ReadState)

  const FRESH: Processor := Processor("", false, NEWLINE)

  /** A byte as a signed char; above 127 only its sign is ever used. */
  function Signed(c: char): int {
    if c as int < 128 then c as int else -1
  }

  datatype Read = Read(byte: int, after: Processor)

  /** One `readFromBuffer`: a byte, or a number that is not positive. */
  function ReadOne(p: Processor): (r: Read)
    ensures r.byte < 128
  {
    if p.pending == "" then
      if p.eofReached && p.state == DOT then Read('.' as int, p.(state := NORMAL)) else Read(0, p)
    else if p.state == DOT && p.pending[0] == '\r' then
      Read('.' as int, p.(state := NORMAL))
    else
      Read(Signed(p.pending[0]), p.(pending := p.pending[1..], state := Next(p.state, p.pending[0])))
  }

  datatype Taken = Taken(out: string, after: Processor)

  /** One `getNProcessedCharacters`: it stops at the first read that is not positive. */
  function Take(p: Processor, n: nat): Taken
    decreases n
  {
    if n == 0 || ReadOne(p).byte <= 0 then Taken("", if n == 0 then p else ReadOne(p).after)
    else
      var rest := Take(ReadOne(p).after, n - 1);
      Taken([ReadOne(p).byte as char] + rest.out, rest.after)
  }

  lemma TakeNone(p: Processor)
    ensures Take(p, 0) == Taken("", p)
  {
  }

  lemma TakeStep(p: Processor, n: nat)
    requires n > 0
    ensures var r := ReadOne(p);
            Take(p, n) == if r.byte <= 0 then Taken("", r.after)
                          else Taken([r.byte as char] + Take(r.after, n - 1).out, Take(r.after, n - 1).after)
  {
  }

  /** strncpy: from the first NUL on, only NULs are copied. */
  function Strncpy(s: string): (t: string)
    ensures |t| == |s|
  {
    if s == "" then "" else if s[0] == '\0' then Nuls(|s|) else [s[0]] + Strncpy(s[1..])
  }

  function Nuls(n: nat): (s: string)
    ensures |s| == n && forall i | 0 <= i < n :: s[i] == '\0'
  {
    seq(n, _ => '\0')
  }

  function Accepted(p: Processor, chunk: string): (n: nat)
    ensures n <= |chunk|
  {
    if BUFFERSIZE - |p.pending| < |chunk| then
      if |p.pending| <= BUFFERSIZE then BUFFERSIZE - |p.pending| else 0
    else |chunk|
  }

  /** One `addCharactersToProcess`. */
  function AddChunk(p: Processor, chunk: string, eofReached: bool): Processor {
    Processor(p.pending + Strncpy(chunk[..Accepted(p, chunk)]), eofReached, p.state)
  }

  /** What will still come out, if `rest` is all that is added from now on. */
  function Remaining(p: Processor, rest: string): string {
    Transduce(p.state, p.pending + rest)
  }

  // ---------- one get ----------

  lemma ReadOneConserves(p: Processor, rest: string)
    requires p.eofReached ==> rest == ""
    ensures var r := ReadOne(p);
            (if r.byte > 0 then [r.byte as char] else "") + Remaining(r.after, rest) == Remaining(p, rest)
  {
    if p.pending != "" {
      assert (p.pending + rest)[0] == p.pending[0] && (p.pending + rest)[1..] == p.pending[1..] + rest;
    } else {
      assert p.pending + rest == rest;
    }
  }

  /** No get loses, repeats or reorders output. */
  lemma {:induction false} TakeConserves(p: Processor, n: nat, rest: string)
    requires p.eofReached ==> rest == ""
    ensures var t := Take(p, n);
            t.out + Remaining(t.after, rest) == Remaining(p, rest)
    ensures |Take(p, n).out| <= n
    decreases n
  {
    if n > 0 {
      var r := ReadOne(p);
      ReadOneConserves(p, rest);
      if r.byte > 0 {
        TakeConserves(r.after, n - 1, rest);
      }
    }
  }

  lemma {:induction false} TakeShrinks(p: Processor, n: nat)
    ensures var t := Take(p, n);
            && t.after.eofReached == p.eofReached
            && |t.after.pending| <= |p.pending|
            && (n >= 2 && p.pending != "" ==> |t.after.pending| < |p.pending|)
            && (forall i | 0 <= i < |t.out| :: Kept(t.out[i]))
    decreases n
  {
    if n > 0 && ReadOne(p).byte > 0 {
      TakeShrinks(ReadOne(p).after, n - 1);
    }
  }

  /** A get that comes up short after the end of the file and empties the buffer has sent everything. */
  lemma {:induction false} ShortTakeIsLast(p: Processor, n: nat)
    requires p.eofReached
    ensures var t := Take(p, n);
            |t.out| < n && t.after.pending == "" ==> t.after.state != DOT && t.out == Remaining(p, "")
    decreases n
  {
    var t := Take(p, n);
    TakeConserves(p, n, "");
    if n > 0 && ReadOne(p).byte > 0 {
      ShortTakeIsLast(ReadOne(p).after, n - 1);
    }
    assert t.after.pending + "" == t.after.pending;
  }

  // ---------- one add ----------

  /** No byte that would be sent follows a NUL. */
  predicate Intact(s: string) {
    forall i, j | 0 <= i < j < |s| && s[i] == '\0' :: !Kept(s[j])
  }

  lemma {:induction false} AllDropped(state: ReadState, s: string, rest: string)
    requires s != "" && forall i | 0 <= i < |s| :: !Kept(s[i])
    ensures Transduce(state, s + rest) == Transduce(NORMAL, rest)
    decreases |s|
  {
    assert (s + rest)[0] == s[0] && (s + rest)[1..] == s[1..] + rest;
    assert Transduce(state, s + rest) == Transduce(NORMAL, s[1..] + rest);
    if |s| > 1 {
      AllDropped(NORMAL, s[1..], rest);
    } else {
      assert s[1..] + rest == rest;
    }
  }

  /** An automaton in the middle of a line never sends more than one in any other state. */
  lemma {:induction false} NormalSendsLeast(state: ReadState, s: string)
    ensures |Transduce(NORMAL, s)| <= |Transduce(state, s)|
    decreases |s|, state == DOT
  {
    if s != "" {
      if state == DOT && s[0] == '\r' {
      } else {
        NormalSendsLeast(Next(state, s[0]), s[1..]);
        assert Next(NORMAL, s[0]) == NORMAL || Next(NORMAL, s[0]) == Next(state, s[0]);
      }
    }
  }

  lemma FrontOf(s: string, rest: string)
    requires s != ""
    ensures (s + rest)[0] == s[0] && (s + rest)[1..] == s[1..] + rest
  {
  }

  lemma {:induction false} KeptByteAddsOutput(state: ReadState, s: string, rest: string)
    requires exists i :: 0 <= i < |s| && Kept(s[i])
    ensures |Transduce(state, s + rest)| > |Transduce(NORMAL, rest)|
    decreases |s|, state == DOT
  {
    var c, tail := s[0], s[1..];
    FrontOf(s, rest);
    if state == DOT && c == '\r' {
      KeptByteAddsOutput(NORMAL, s, rest);
    } else if j :| 0 <= j < |tail| && Kept(tail[j]) {
      KeptByteAddsOutput(Next(state, c), tail, rest);
    } else {
      NormalSendsLeast(Next(state, c), tail + rest);
      if tail != "" {
        AllDropped(NORMAL, tail, rest);
      } else {
        assert tail + rest == rest;
      }
    }
  }

  /** strncpy keeps a chunk's output when it is intact, whatever follows; it loses output when it is not. */
  lemma {:induction false} StrncpyEffect(state: ReadState, s: string, rest: string)
    ensures Intact(s) ==> Transduce(state, Strncpy(s) + rest) == Transduce(state, s + rest)
    ensures !Intact(s) ==> |Transduce(state, Strncpy(s) + rest)| < |Transduce(state, s + rest)|
    decreases |s|, state == DOT
  {
    var t := Strncpy(s);
    if s == "" {
    } else if s[0] == '\0' {
      assert (s + rest)[0] == s[0] && (s + rest)[1..] == s[1..] + rest;
      AllDropped(state, t, rest);
      assert Transduce(state, s + rest) == Transduce(NORMAL, s[1..] + rest);
      if i :| 0 <= i < |s[1..]| && Kept(s[1..][i]) {
        assert Kept(s[i + 1]) && !Intact(s);
        KeptByteAddsOutput(NORMAL, s[1..], rest);
      } else {
        assert forall i | 0 <= i < |s| :: !Kept(s[i]) by {
          assert forall i | 1 <= i < |s| :: s[i] == s[1..][i - 1];
        }
        AllDropped(state, s, rest);
      }
    } else {
      assert (s + rest)[0] == s[0] && (s + rest)[1..] == s[1..] + rest;
      assert (t + rest)[0] == s[0] && (t + rest)[1..] == Strncpy(s[1..]) + rest;
      assert Intact(s) <==> Intact(s[1..]) by {
        IntactTail(s);
      }
      if state == DOT && s[0] == '\r' {
        StrncpyEffect(NORMAL, s, rest);
      } else {
        StrncpyEffect(Next(state, s[0]), s[1..], rest);
      }
    }
  }

  lemma IntactTail(s: string)
    requires s != "" && s[0] != '\0'
    ensures Intact(s) <==> Intact(s[1..])
  {
    if Intact(s[1..]) {
      forall i, j | 0 <= i < j < |s| && s[i] == '\0'
        ensures !Kept(s[j])
      {
        assert s[1..][i - 1] == '\0' && s[1..][j - 1] == s[j];
      }
    }
    if Intact(s) {
      forall i, j | 0 <= i < j < |s[1..]| && s[1..][i] == '\0'
        ensures !Kept(s[1..][j])
      {
        assert s[i + 1] == '\0' && s[1..][j] == s[j + 1];
      }
    }
  }

  /** A chunk can be cut off from the rest of its mail without loss exactly when it is intact. */
  lemma StrncpyHarmlessExactly(s: string)
    ensures Intact(s) <==> forall state, rest :: Transduce(state, Strncpy(s) + rest) == Transduce(state, s + rest)
  {
    forall state, rest
      ensures Intact(s) ==> Transduce(state, Strncpy(s) + rest) == Transduce(state, s + rest)
    {
      StrncpyEffect(state, s, rest);
    }
    StrncpyEffect(NORMAL, s, "");
  }

  // ---------- any interleaving ----------

  datatype Op = AddOp(chunk: string, eofReached: bool) | GetOp(n: nat)

  datatype Progress = Progress(processor: Processor, accepted: string, out: string)

  function Step(s: Progress, op: Op): Progress {
    match op
    case AddOp(chunk, eofReached) =>
      Progress(AddChunk(s.processor, chunk, eofReached), s.accepted + chunk[..Accepted(s.processor, chunk)], s.out)
    case GetOp(n) =>
      var t := Take(s.processor, n);
      Progress(t.after, s.accepted, s.out + t.out)
  }

  function RunOps(s: Progress, ops: seq<Op>): Progress
    decreases |ops|
  {
    if ops == [] then s else RunOps(Step(s, ops[0]), ops[1..])
  }

  /** The caller's side: chunks are intact, and nothing is added once the end of the file was reported. */
  ghost predicate Orderly(s: Progress, ops: seq<Op>)
    decreases |ops|
  {
    if ops == [] then true
    else
      && OrderlyOp(s, ops[0])
      && Orderly(Step(s, ops[0]), ops[1..])
  }

  /** Everything sent so far and everything still to come add up to the stuffed input. */
  ghost predicate Balanced(s: Progress) {
    forall rest :: BalancedWith(s, rest)
  }

  ghost predicate BalancedWith(s: Progress, rest: string) {
    (s.processor.eofReached ==> rest == "") ==>
      s.out + Remaining(s.processor, rest) == Transduce(NEWLINE, s.accepted + rest)
  }

  ghost predicate OrderlyOp(s: Progress, op: Op) {
    op.AddOp? ==>
      var taken := op.chunk[..Accepted(s.processor, op.chunk)];
      Intact(taken) && (s.processor.eofReached ==> taken == "" && op.eofReached)
  }

  lemma StepBalanced(s: Progress, op: Op, rest: string)
    requires Balanced(s) && OrderlyOp(s, op)
    ensures BalancedWith(Step(s, op), rest)
  {
    match op
    case AddOp(chunk, eofReached) => AddBalanced(s, chunk, eofReached, rest);
    case GetOp(n) => GetBalanced(s, n, rest);
  }

  lemma AddBalanced(s: Progress, chunk: string, eofReached: bool, rest: string)
    requires Balanced(s) && OrderlyOp(s, AddOp(chunk, eofReached))
    ensures BalancedWith(Step(s, AddOp(chunk, eofReached)), rest)
  {
    hide Transduce, Remaining, AddChunk, Accepted, Intact;
    var taken := chunk[..Accepted(s.processor, chunk)];
    assert BalancedWith(s, taken + rest);
    assert s.accepted + (taken + rest) == s.accepted + taken + rest;
    AddConserves(s.processor, chunk, eofReached, rest);
    AddKeepsEof(s.processor, chunk, eofReached);
  }

  lemma AddKeepsEof(p: Processor, chunk: string, eofReached: bool)
    ensures AddChunk(p, chunk, eofReached).eofReached == eofReached
  {
  }

  lemma GetBalanced(s: Progress, n: nat, rest: string)
    requires Balanced(s)
    ensures BalancedWith(Step(s, GetOp(n)), rest)
  {
    hide Transduce, Remaining, Take;
    assert BalancedWith(s, rest);
    TakeShrinks(s.processor, n);
    if s.processor.eofReached ==> rest == "" {
      TakeConserves(s.processor, n, rest);
      var t := Take(s.processor, n);
      assert s.out + (t.out + Remaining(t.after, rest)) == s.out + t.out + Remaining(t.after, rest);
    }
  }

  lemma AddConserves(p: Processor, chunk: string, eofReached: bool, rest: string)
    requires Intact(chunk[..Accepted(p, chunk)])
    ensures Remaining(AddChunk(p, chunk, eofReached), rest) == Remaining(p, chunk[..Accepted(p, chunk)] + rest)
  {
    var taken := chunk[..Accepted(p, chunk)];
    TransduceCongruence(p.state, p.pending, Strncpy(taken) + rest, taken + rest, taken, rest);
    assert p.pending + Strncpy(taken) + rest == p.pending + (Strncpy(taken) + rest);
  }

  lemma {:induction false} TransduceCongruence(state: ReadState, s: string, a: string, b: string, taken: string,
                                               rest: string)
    requires Intact(taken) && a == Strncpy(taken) + rest && b == taken + rest
    ensures Transduce(state, s + a) == Transduce(state, s + b)
    decreases |s|, state == DOT
  {
    if s == "" {
      StrncpyEffect(state, taken, rest);
      assert s + a == a && s + b == b;
    } else {
      assert (s + a)[0] == s[0] && (s + a)[1..] == s[1..] + a;
      assert (s + b)[0] == s[0] && (s + b)[1..] == s[1..] + b;
      if state == DOT && s[0] == '\r' {
        TransduceCongruence(NORMAL, s, a, b, taken, rest);
      } else {
        TransduceCongruence(Next(state, s[0]), s[1..], a, b, taken, rest);
      }
    }
  }

  lemma {:induction false} RunBalanced(s: Progress, ops: seq<Op>)
    requires Balanced(s) && Orderly(s, ops)
    ensures Balanced(RunOps(s, ops))
    decreases |ops|
  {
    if ops != [] {
      forall rest
        ensures BalancedWith(Step(s, ops[0]), rest)
      {
        StepBalanced(s, ops[0], rest);
      }
      RunBalanced(Step(s, ops[0]), ops[1..]);
    }
  }

  /** However the input is cut and whenever the output is asked for, what came out is a prefix of the stuffed input,
      and all of it once a get comes up short after the end of the file with nothing left to read. */
  lemma ChunkInvariance(ops: seq<Op>, n: nat)
    requires Orderly(Progress(FRESH, "", ""), ops)
    ensures var end := RunOps(Progress(FRESH, "", ""), ops);
            && end.out <= Stuff(end.accepted)
            && var last := Take(end.processor, n);
               (end.processor.eofReached && |last.out| < n && last.after.pending == "" ==>
                  end.out + last.out == Stuff(end.accepted))
  {
    var start := Progress(FRESH, "", "");
    assert Balanced(start) by {
      forall rest: string
        ensures BalancedWith(start, rest)
      {
        assert FRESH.pending + rest == "" + rest;
      }
    }
    RunBalanced(start, ops);
    var end := RunOps(start, ops);
    TransduceIsStuff(end.accepted);
    assert end.accepted + "" == end.accepted;
    assert BalancedWith(end, "");
    if end.processor.eofReached {
      ShortTakeIsLast(end.processor, n);
    }
  }
}
