/** A user's mails on values: marks, the place of LIST, and the mail being retrieved. */
module Mailbox {
  import opened Text
  import opened Stuffing
  import opened Streaming

  datatype ExecutionStatus = FINISHED | NOT_FINISHED | FAILED

  /** `body` is what its file holds, `sizeInBytes` what was noted at login. */
  datatype Mail = Mail(body: string, sizeInBytes: nat, toDelete: bool)

  /** A stdio stream open for reading. */
  datatype File = File(body: string, offset: nat, eof: bool)

  datatype MailInfo = MailInfo(mailNo: int, sizeInBytes: int)

  datatype Cache = Cache(
    mails: seq<Mail>,
    markedToDelete: int,
    currentMail: Option<File>,
    processor: Processor,
    position: nat,
    unlinked: seq<nat>)

  function InitCache(bodies: seq<string>): Cache {
    Cache(seq(|bodies|, i requires 0 <= i < |bodies| => Mail(bodies[i], |bodies[i]|, false)), 0, None, FRESH, 0, [])
  }

  /** A login opens every file of the directory as a mail of its own, with its own size, and none of them marked. */
  lemma InitCacheIs(bodies: seq<string>)
    ensures |InitCache(bodies).mails| == |bodies|
    ensures forall i | 0 <= i < |bodies| :: InitCache(bodies).mails[i] == Mail(bodies[i], |bodies[i]|, false)
    ensures InitCache(bodies).markedToDelete == 0 && InitCache(bodies).unlinked == []
  {
  }

  predicate ValidMailNo(mails: seq<Mail>, mailNo: int) {
    0 < mailNo <= |mails| && !mails[mailNo - 1].toDelete
  }

  // ---------- marks ----------

  function CountMarked(mails: seq<Mail>): nat {
    if mails == [] then 0 else (if mails[0].toDelete then 1 else 0) + CountMarked(mails[1..])
  }

  /** The files' sizes, as stat reports them, of the mails that are not marked. */
  function SizeOfUnmarked(mails: seq<Mail>): nat {
    if mails == [] then 0 else (if mails[0].toDelete then 0 else |mails[0].body|) + SizeOfUnmarked(mails[1..])
  }

  function AmountOfMails(c: Cache): int {
    |c.mails| - c.markedToDelete
  }

  function MarkMail(c: Cache, mailNo: int): Cache
    requires ValidMailNo(c.mails, mailNo)
  {
    c.(mails := c.mails[mailNo - 1 := c.mails[mailNo - 1].(toDelete := true)], markedToDelete := c.markedToDelete + 1)
  }

  function Unmarked(mails: seq<Mail>): (r: seq<Mail>)
    ensures |r| == |mails| && forall i | 0 <= i < |r| :: r[i] == mails[i].(toDelete := false)
  {
    seq(|mails|, i requires 0 <= i < |mails| => mails[i].(toDelete := false))
  }

  function ResetToDelete(c: Cache): Cache {
    c.(mails := Unmarked(c.mails), markedToDelete := 0)
  }

  /** The numbers of the marked mails among the first `n`, in order. */
  function MarkedNumbers(mails: seq<Mail>, n: nat): seq<nat>
    requires n <= |mails|
  {
    if n == 0 then [] else MarkedNumbers(mails, n - 1) + if mails[n - 1].toDelete then [n] else []
  }

  function DeleteMarkedMails(c: Cache): Cache {
    c.(unlinked := c.unlinked + MarkedNumbers(c.mails, |c.mails|))
  }

  lemma {:induction false} CountMarkedUpdate(mails: seq<Mail>, i: nat)
    requires i < |mails| && !mails[i].toDelete
    ensures CountMarked(mails[i := mails[i].(toDelete := true)]) == CountMarked(mails) + 1
  {
    var mails' := mails[i := mails[i].(toDelete := true)];
    if i == 0 {
      assert mails'[1..] == mails[1..];
    } else {
      assert mails'[1..] == mails[1..][i - 1 := mails[1..][i - 1].(toDelete := true)];
      CountMarkedUpdate(mails[1..], i - 1);
    }
  }

  lemma {:induction false} CountMarkedNone(mails: seq<Mail>)
    requires forall i | 0 <= i < |mails| :: !mails[i].toDelete
    ensures CountMarked(mails) == 0
  {
    if mails != [] {
      CountMarkedNone(mails[1..]);
    }
  }

  lemma {:induction false} CountMarkedBound(mails: seq<Mail>)
    ensures CountMarked(mails) <= |mails|
  {
    if mails != [] {
      CountMarkedBound(mails[1..]);
    }
  }

  lemma {:induction false} MarkedNumbersMember(mails: seq<Mail>, n: nat)
    requires n <= |mails|
    ensures forall k :: k in MarkedNumbers(mails, n) <==> 1 <= k <= n && mails[k - 1].toDelete
    ensures forall i, j | 0 <= i < j < |MarkedNumbers(mails, n)| ::
              MarkedNumbers(mails, n)[i] < MarkedNumbers(mails, n)[j]
  {
    if n > 0 {
      MarkedNumbersMember(mails, n - 1);
      var before := MarkedNumbers(mails, n - 1);
      assert forall i | 0 <= i < |before| :: before[i] in before;
    }
  }

  // ---------- LIST ----------

  datatype NextResult = NextResult(code: int, cache: Cache, info: MailInfo)

  /** 0, or the value of FAILED in the enumeration. */
  const FAILED_CODE: int := 2

  predicate HasNext(c: Cache) {
    c.position < |c.mails|
  }

  function NextListed(c: Cache, info: MailInfo): NextResult
    decreases |c.mails| - c.position
  {
    if !HasNext(c) then NextResult(FAILED_CODE, c, info)
    else
      var c' := c.(position := c.position + 1);
      if c.mails[c.position].toDelete then NextListed(c', info)
      else NextResult(0, c', MailInfo(c'.position, c.mails[c.position].sizeInBytes))
  }

  // ---------- RETR ----------

  datatype Chunk = Chunk(data: string, file: File)

  /** fread: what is left, up to `n` bytes; the end of the file is noticed when less than that is left. */
  function Fread(f: File, n: nat): Chunk {
    var left := if f.offset <= |f.body| then f.body[f.offset..] else "";
    var k := Min(n, |left|);
    Chunk(left[..k], f.(offset := f.offset + k, eof := f.eof || k < n))
  }

  function OpenMail(c: Cache, mailNo: int): Cache
    requires ValidMailNo(c.mails, mailNo)
  {
    c.(currentMail := Some(File(c.mails[mailNo - 1].body, 0, false)), processor := FRESH)
  }

  datatype Got = Got(status: ExecutionStatus, out: string, cache: Cache)

  /** The refill of the stuffer, when it holds less than is asked for. */
  function Refill(c: Cache, n: nat): Cache
    requires c.currentMail.Some?
  {
    var available := |c.processor.pending|;
    if n > available then
      var chunk := Fread(c.currentMail.value, n - available);
      c.(currentMail := Some(chunk.file), processor := AddChunk(c.processor, chunk.data, chunk.file.eof))
    else c
  }

  /** `getNCharsFromMail` with a mail open. */
  function GetN(c: Cache, n: nat): Got
    requires c.currentMail.Some?
  {
    var full := Refill(c, n);
    var taken := Take(full.processor, n);
    var c' := full.(processor := taken.after);
    Got(if c'.currentMail.value.eof && taken.after.pending == "" then FINISHED else NOT_FINISHED, taken.out, c')
  }

  /** What the open mail still has to send. */
  function Left(c: Cache): string
    requires c.currentMail.Some? && c.currentMail.value.offset <= |c.currentMail.value.body|
  {
    Remaining(c.processor, c.currentMail.value.body[c.currentMail.value.offset..])
  }

  /** The stuffer fits its buffer and agrees with the file about its end. */
  ghost predicate Reading(c: Cache) {
    c.currentMail.Some? ==>
      var f := c.currentMail.value;
      && f.offset <= |f.body| && |c.processor.pending| <= BUFFERSIZE
      && c.processor.eofReached == f.eof && (f.eof ==> f.offset == |f.body|)
  }

  function Unread(c: Cache): nat
    requires c.currentMail.Some? && c.currentMail.value.offset <= |c.currentMail.value.body|
  {
    |c.currentMail.value.body| - c.currentMail.value.offset + |c.processor.pending|
  }

  lemma OpenMailReading(c: Cache, mailNo: int)
    requires ValidMailNo(c.mails, mailNo)
    ensures var c' := OpenMail(c, mailNo);
            Reading(c') && Left(c') == Stuff(c.mails[mailNo - 1].body)
  {
    var body := c.mails[mailNo - 1].body;
    TransduceIsStuff(body);
    assert body[0..] == body && "" + body == body;
  }

  lemma IntactPart(s: string, i: nat, j: nat)
    requires i <= j <= |s| && Intact(s)
    ensures Intact(s[i..j])
  {
    forall a, b | 0 <= a < b < |s[i..j]| && s[i..j][a] == '\0'
      ensures !Kept(s[i..j][b])
    {
      assert s[i + a] == '\0' && !Kept(s[i + b]);
    }
  }

  /** The refill always fits: no byte read from the file is lost. */
  lemma RefillFits(c: Cache, n: nat)
    requires c.currentMail.Some? && Reading(c) && n <= BUFFERSIZE
    ensures var c' := Refill(c, n);
            && Reading(c') && |c'.processor.pending| <= BUFFERSIZE
            && c'.currentMail.value.body == c.currentMail.value.body
            && Unread(c') == Unread(c)
            && (|c.processor.pending| < n && c'.processor.pending == "" ==> c'.currentMail.value.eof)
  {
  }

  /** What was read and what is left to read are what was left before. */
  lemma ChunkIsFront(f: File, n: nat)
    requires f.offset <= |f.body|
    ensures var chunk := Fread(f, n);
            && f.offset <= chunk.file.offset <= |f.body| && chunk.data == f.body[f.offset..chunk.file.offset]
            && f.body[f.offset..] == chunk.data + f.body[chunk.file.offset..]
  {
  }

  lemma RefillConserves(c: Cache, n: nat)
    requires c.currentMail.Some? && Reading(c) && n <= BUFFERSIZE && Intact(c.currentMail.value.body)
    ensures Reading(Refill(c, n)) && Left(Refill(c, n)) == Left(c)
  {
    RefillFits(c, n);
    var f, available := c.currentMail.value, |c.processor.pending|;
    if n > available {
      var chunk := Fread(f, n - available);
      var left := f.body[f.offset..];
      var rest := f.body[chunk.file.offset..];
      ChunkIsFront(f, n - available);
      IntactPart(f.body, f.offset, chunk.file.offset);
      assert chunk.data[..Accepted(c.processor, chunk.data)] == chunk.data;
      AddConserves(c.processor, chunk.data, chunk.file.eof, rest);
    }
  }

  /** One call neither loses nor repeats anything of an intact mail. */
  lemma GetNConserves(c: Cache, n: nat)
    requires c.currentMail.Some? && Reading(c) && n <= BUFFERSIZE && Intact(c.currentMail.value.body)
    ensures var g := GetN(c, n);
            && Reading(g.cache) && g.cache.currentMail.Some?
            && g.cache.currentMail.value.body == c.currentMail.value.body
            && g.out + Left(g.cache) == Left(c)
  {
    RefillFits(c, n);
    RefillConserves(c, n);
    var full := Refill(c, n);
    var f := full.currentMail.value;
    TakeShrinks(full.processor, n);
    TakeConserves(full.processor, n, f.body[f.offset..]);
  }

  /** The last call leaves at most a dot unsent, and not even that when it comes up short. */
  lemma GetNFinishes(c: Cache, n: nat)
    requires c.currentMail.Some? && Reading(c) && n <= BUFFERSIZE
    ensures var g := GetN(c, n);
            && Reading(g.cache) && g.cache.currentMail.Some? && |g.out| <= n
            && (forall i | 0 <= i < |g.out| :: Kept(g.out[i]))
            && (g.status == FINISHED ==> Left(g.cache) == if g.cache.processor.state == DOT then "." else "")
            && (g.status == FINISHED && |g.out| < n ==> Left(g.cache) == "")
  {
    RefillFits(c, n);
    var full := Refill(c, n);
    TakeShrinks(full.processor, n);
    TakeConserves(full.processor, n, "");
    if GetN(c, n).status == FINISHED {
      ShortTakeIsLast(full.processor, n);
    }
  }

  /** A call for at least two bytes finishes the mail or leaves less of it unread. */
  lemma GetNProgress(c: Cache, n: nat)
    requires c.currentMail.Some? && Reading(c) && 2 <= n <= BUFFERSIZE
    ensures var g := GetN(c, n);
            Reading(g.cache) && g.cache.currentMail.Some? && (g.status == FINISHED || Unread(g.cache) < Unread(c))
  {
    RefillFits(c, n);
    TakeShrinks(Refill(c, n).processor, n);
  }
}
