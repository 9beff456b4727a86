/** A logged-in user's mails as the server keeps them: an array of mails, an open file and a stuffer. */
module MailCache {
  import opened Text
  import opened Streaming
  import opened Mailbox
  import CP = CharactersProcessor

  class MailCache {
    const mails: array<Mail>
    var markedToDelete: int
    var currentMail: Option<File>
    const charactersProcessor: CP.CharactersProcessor
    var position: nat
    /** The files unlinked so far, by mail number. */
    var unlinked: seq<nat>

    ghost predicate Valid()
      reads this, Repr()
    {
      charactersProcessor.Valid() && Reading(View())
    }

    ghost function Repr(): set<object>
    {
      {this, mails, charactersProcessor, charactersProcessor.buffer}
    }

    ghost function View(): Cache
      reads this, Repr()
    {
      Cache(mails[..], markedToDelete, currentMail,
            if charactersProcessor.InBounds() then charactersProcessor.View() else FRESH, position, unlinked)
    }

    /** initCache, given what the files of the user's directory hold. */
    constructor (bodies: seq<string>)
      ensures Valid() && fresh(Repr()) && View() == InitCache(bodies)
    {
      mails := new Mail[|bodies|](i requires 0 <= i < |bodies| => Mail(bodies[i], |bodies[i]|, false));
      markedToDelete, currentMail, position, unlinked := 0, None, 0, [];
      charactersProcessor := new CP.CharactersProcessor();
    }

    predicate CheckMailNo(mailNo: int)
      reads this, mails
      ensures CheckMailNo(mailNo) <==> ValidMailNo(mails[..], mailNo)
    {
      0 < mailNo <= mails.Length && !mails[mailNo - 1].toDelete
    }

    method OpenMail(mailNo: int) returns (status: ExecutionStatus)
      requires Valid()
      modifies this, charactersProcessor
      ensures Valid()
      ensures if ValidMailNo(old(View()).mails, mailNo)
              then status == FINISHED && View() == Mailbox.OpenMail(old(View()), mailNo)
              else status == FAILED && View() == old(View())
    {
      if !CheckMailNo(mailNo) {
        return FAILED;
      }
      CloseMail();
      currentMail := Some(File(mails[mailNo - 1].body, 0, false));
      charactersProcessor.Reset();
      status := FINISHED;
    }

    method CloseMail()
      requires Valid()
      modifies this`currentMail
      ensures Valid() && View() == old(View()).(currentMail := None)
    {
      if currentMail.Some? {
        currentMail := None;
      }
    }

    /** fread(dest, 1, n, currentMail) */
    method FreadInto(dest: array<char>, n: nat) returns (charactersRead: nat)
      requires currentMail.Some? && currentMail.value.offset <= |currentMail.value.body| && n <= dest.Length
      requires dest != charactersProcessor.buffer
      modifies this`currentMail, dest
      ensures var chunk := Fread(old(currentMail.value), n);
              charactersRead == |chunk.data| && dest[..charactersRead] == chunk.data && currentMail == Some(chunk.file)
    {
      var f := currentMail.value;
      charactersRead := 0;
      while charactersRead < n && f.offset + charactersRead < |f.body|
        invariant charactersRead <= n && f.offset + charactersRead <= |f.body|
        invariant dest[..charactersRead] == f.body[f.offset..f.offset + charactersRead]
      {
        dest[charactersRead] := f.body[f.offset + charactersRead];
        assert dest[..charactersRead + 1] == dest[..charactersRead] + [dest[charactersRead]];
        charactersRead := charactersRead + 1;
      }
      currentMail := Some(f.(offset := f.offset + charactersRead, eof := f.eof || charactersRead < n));
    }

    /** Refills the stuffer from the open mail, through `dest`. */
    method RefillFrom(dest: array<char>, n: nat)
      requires Valid() && currentMail.Some? && n <= dest.Length && n <= BUFFERSIZE && dest !in Repr()
      modifies this`currentMail, charactersProcessor, charactersProcessor.buffer, dest
      ensures Valid() && View() == Refill(old(View()), n)
    {
      RefillFits(View(), n);
      var available := charactersProcessor.AvailableCharacters();
      if n > available {
        var charactersRead := FreadInto(dest, n - available);
        var added := charactersProcessor.Add(dest[..charactersRead], currentMail.value.eof);
      }
    }

    method GetNCharsFromMail(dest: array<char>, n: nat) returns (status: ExecutionStatus, characters: nat)
      requires Valid() && currentMail.Some? && n <= dest.Length && n <= BUFFERSIZE && dest !in Repr()
      modifies this`currentMail, charactersProcessor, charactersProcessor.buffer, dest
      ensures Valid()
      ensures var g := GetN(old(View()), n);
              && status == g.status && View() == g.cache
              && characters == |g.out| <= n && dest[..characters] == g.out
    {
      GetNFinishes(View(), n);
      RefillFrom(dest, n);
      characters := charactersProcessor.GetN(dest, n);
      var left := charactersProcessor.AvailableCharacters();
      status := if currentMail.value.eof && left == 0 then FINISHED else NOT_FINISHED;
    }

    method ToBegin()
      requires Valid()
      modifies this`position
      ensures Valid() && View() == old(View()).(position := 0)
    {
      position := 0;
    }

    predicate HasMore()
      reads Repr()
      ensures HasMore() <==> HasNext(View())
    {
      position < mails.Length
    }

    method NextMail(info: MailInfo) returns (code: int, info': MailInfo)
      requires Valid()
      modifies this`position
      ensures Valid() && NextResult(code, View(), info') == NextListed(old(View()), info)
      decreases mails.Length - position
    {
      if !HasMore() {
        return FAILED_CODE, info;
      }
      var mail := mails[position];
      position := position + 1;
      if mail.toDelete {
        code, info' := NextMail(info);
        return;
      }
      return 0, MailInfo(position, mail.sizeInBytes);
    }

    function GetMailInfo(mailNo: int): (info: Option<MailInfo>)
      reads this, mails
      ensures info == if ValidMailNo(mails[..], mailNo)
                      then Some(MailInfo(mailNo, mails[mailNo - 1].sizeInBytes)) else None
    {
      if CheckMailNo(mailNo) then Some(MailInfo(mailNo, mails[mailNo - 1].sizeInBytes)) else None
    }

    method MarkMailToDelete(mailNo: int) returns (status: ExecutionStatus)
      requires Valid()
      modifies this`markedToDelete, mails
      ensures Valid()
      ensures if ValidMailNo(old(View()).mails, mailNo)
              then status == FINISHED && View() == MarkMail(old(View()), mailNo)
              else status == FAILED && View() == old(View())
    {
      if !CheckMailNo(mailNo) {
        return FAILED;
      }
      mails[mailNo - 1] := mails[mailNo - 1].(toDelete := true);
      markedToDelete := markedToDelete + 1;
      status := FINISHED;
    }

    method ResetMarks()
      requires Valid()
      modifies this`markedToDelete, mails
      ensures Valid() && View() == ResetToDelete(old(View()))
    {
      var mailNo := 0;
      while mailNo < mails.Length
        invariant mailNo <= mails.Length
        invariant forall i | 0 <= i < mailNo :: mails[i] == old(mails[i]).(toDelete := false)
        invariant forall i | mailNo <= i < mails.Length :: mails[i] == old(mails[i])
      {
        mails[mailNo] := mails[mailNo].(toDelete := false);
        mailNo := mailNo + 1;
      }
      markedToDelete := 0;
      assert mails[..] == Unmarked(old(mails[..]));
    }

    method UnlinkMarked()
      requires Valid()
      modifies this`unlinked
      ensures Valid() && View() == DeleteMarkedMails(old(View()))
    {
      var mailNo := 0;
      while mailNo < mails.Length
        invariant mailNo <= mails.Length
        invariant unlinked == old(unlinked) + MarkedNumbers(mails[..], mailNo)
      {
        if mails[mailNo].toDelete {
          unlinked := unlinked + [mailNo + 1];
        }
        mailNo := mailNo + 1;
      }
    }

    function Amount(): (n: int)
      reads Repr()
      ensures n == AmountOfMails(View())
    {
      mails.Length - markedToDelete
    }

    method Size() returns (sizeInBytes: nat)
      requires Valid()
      ensures sizeInBytes == SizeOfUnmarked(mails[..])
    {
      sizeInBytes := 0;
      var i := 0;
      assert mails[..][0..] == mails[..];
      while i < mails.Length
        invariant i <= mails.Length
        invariant sizeInBytes + SizeOfUnmarked(mails[..][i..]) == SizeOfUnmarked(mails[..])
      {
        assert mails[..][i..][0] == mails[i] && mails[..][i..][1..] == mails[..][i + 1..];
        if !mails[i].toDelete {
          sizeInBytes := sizeInBytes + |mails[i].body|;
        }
        i := i + 1;
      }
    }
  }
}
