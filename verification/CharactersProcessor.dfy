/** The streaming stuffer as the server keeps it: a fixed buffer, two indices, a flag and a state. */
module CharactersProcessor {
  import opened Text
  import opened Stuffing
  import opened Streaming

  /** A NUL is among the first `n` bytes. */
  predicate EndsWithin(s: string, n: nat) {
    exists k :: 0 <= k < n && k < |s| && s[k] == '\0'
  }

  lemma {:induction false} StrncpyIndex(s: string, i: nat)
    requires i < |s|
    ensures Strncpy(s)[i] == if EndsWithin(s, i + 1) then '\0' else s[i]
  {
    if s[0] != '\0' && i > 0 {
      var rest := s[1..];
      StrncpyIndex(rest, i - 1);
      if k :| 0 <= k < i + 1 && s[k] == '\0' {
        assert rest[k - 1] == s[k];
      }
      if k :| 0 <= k < i && rest[k] == '\0' {
        assert s[k + 1] == rest[k];
      }
    }
  }

  class CharactersProcessor {
    const buffer: array<char>
    var idx: nat
    var len: nat
    var eofReached: bool
    var state: ReadState

    ghost predicate InBounds()
      reads this, buffer
    {
      buffer.Length == BUFFERSIZE && idx <= len <= BUFFERSIZE
    }

    /** Between calls the pending bytes start at the front of the buffer. */
    ghost predicate Valid()
      reads this, buffer
    {
      InBounds() && idx == 0
    }

    ghost function View(): Processor
      requires InBounds()
      reads this, buffer
    {
      Processor(buffer[idx..len], eofReached, state)
    }

    constructor ()
      ensures Valid() && fresh(buffer) && View() == FRESH
    {
      buffer := new char[BUFFERSIZE];
      idx, len, eofReached, state := 0, 0, false, NEWLINE;
    }

    method Reset()
      requires InBounds()
      modifies this
      ensures Valid() && View() == FRESH
    {
      idx := 0;
      len := 0;
      state := NEWLINE;
      eofReached := false;
    }

    function AvailableCharacters(): (n: nat)
      requires InBounds()
      reads this, buffer
      ensures n == |View().pending|
    {
      len - idx
    }

    function AvailableSpace(): (n: nat)
      requires InBounds()
      reads this, buffer
      ensures n == BUFFERSIZE - |View().pending|
    {
      BUFFERSIZE - AvailableCharacters()
    }

    method ReadFromBuffer() returns (c: int)
      requires InBounds()
      modifies this
      ensures InBounds()
      ensures c == ReadOne(old(View())).byte && View() == ReadOne(old(View())).after
    {
      if idx >= len {
        if eofReached && state == DOT {
          state := NORMAL;
          return '.' as int;
        }
        return 0;
      }
      var byte := buffer[idx];
      if state == DOT && byte == '\r' {
        state := NORMAL;
        return '.' as int;
      }
      if byte == '\r' {
        state := CR;
      } else if byte == '\n' {
        state := NEWLINE;
      } else if byte == '.' && state == NEWLINE {
        state := DOT;
      } else {
        state := NORMAL;
      }
      idx := idx + 1;
      c := Signed(byte);
    }

    /** memmove of the pending bytes to the front. */
    method RebaseBuffer()
      requires InBounds()
      modifies this, buffer
      ensures Valid() && View() == old(View())
    {
      var bytesToMove := AvailableCharacters();
      var i := 0;
      while i < bytesToMove
        invariant i <= bytesToMove && idx == old(idx) && len == old(len)
        invariant eofReached == old(eofReached) && state == old(state)
        invariant forall k | 0 <= k < i :: buffer[k] == old(buffer[idx + k])
        invariant forall k | i <= k < buffer.Length :: buffer[k] == old(buffer[k])
      {
        buffer[i] := buffer[idx + i];
        i := i + 1;
      }
      idx := 0;
      len := bytesToMove;
      assert buffer[..len] == old(buffer[idx..len]);
    }

    method GetN(dest: array<char>, n: nat) returns (copied: nat)
      requires Valid() && dest != buffer && n <= dest.Length
      modifies this, buffer, dest
      ensures Valid() && copied <= n
      ensures var t := Take(old(View()), n);
              copied == |t.out| && dest[..copied] == t.out && View() == t.after
      ensures dest[copied..] == old(dest[copied..])
    {
      hide Take, ReadOne;
      ghost var all := Take(View(), n);
      copied := 0;
      while copied < n
        invariant InBounds() && copied <= n
        invariant all == Taken(dest[..copied] + Take(View(), n - copied).out, Take(View(), n - copied).after)
        invariant dest[copied..] == old(dest[copied..])
      {
        TakeStep(View(), n - copied);
        var c := ReadFromBuffer();
        if c <= 0 {
          assert all.out == dest[..copied] && all.after == View();
          break;
        }
        ghost var rest, got := Take(View(), n - copied - 1), dest[..copied];
        dest[copied] := c as char;
        assert dest[..copied + 1] == got + [c as char];
        assert dest[..copied + 1] + rest.out == got + ([c as char] + rest.out);
        copied := copied + 1;
      }
      TakeNone(View());
      RebaseBuffer();
    }

    /** strncpy(buffer + at, src, n) */
    method CopyIn(at: nat, src: string)
      requires InBounds() && len <= at && at + |src| <= BUFFERSIZE
      modifies buffer
      ensures buffer[at..at + |src|] == Strncpy(src) && buffer[..at] == old(buffer[..at])
    {
      hide Strncpy;
      var i := 0;
      var ended := false;
      while i < |src|
        invariant i <= |src| && (ended <==> EndsWithin(src, i))
        invariant forall k | 0 <= k < i :: buffer[at + k] == Strncpy(src)[k]
        invariant buffer[..at] == old(buffer[..at])
      {
        ended := ended || src[i] == '\0';
        StrncpyIndex(src, i);
        buffer[at + i] := if ended then '\0' else src[i];
        i := i + 1;
      }
    }

    method Add(src: string, eofReached: bool) returns (toAdd: nat)
      requires Valid()
      modifies this, buffer
      ensures Valid()
      ensures View() == AddChunk(old(View()), src, eofReached)
      ensures toAdd == Accepted(old(View()), src) == Min(|src|, BUFFERSIZE - |old(View()).pending|)
    {
      this.eofReached := eofReached;
      var freeSpace := AvailableSpace();
      toAdd := if freeSpace < |src| then freeSpace else |src|;
      ghost var before := buffer[..len];
      CopyIn(len, src[..toAdd]);
      len := len + toAdd;
      assert buffer[..len] == before + Strncpy(src[..toAdd]);
    }
  }
}
