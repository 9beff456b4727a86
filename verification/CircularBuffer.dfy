/** The output buffer of a connection: a ring over a fixed array. */
module CircularBuffer {
  import opened Text
  import opened Streaming

  /** The index `i` places after `from` in the ring. */
  function Slot(from: nat, i: nat): (k: nat)
    requires from < BUFFERSIZE && i <= BUFFERSIZE
    ensures k == if from + i < BUFFERSIZE then from + i else from + i - BUFFERSIZE
  {
    (from + i) % BUFFERSIZE
  }

  /** The `n` characters of the ring `a` that start at `from`. */
  function Window(a: string, from: nat, n: nat): (s: string)
    requires |a| == BUFFERSIZE && from < BUFFERSIZE && n <= BUFFERSIZE
    ensures |s| == n && forall i | 0 <= i < n :: s[i] == a[Slot(from, i)]
  {
    seq(n, i requires 0 <= i < n => a[Slot(from, i)])
  }

  lemma WindowPush(a: string, from: nat, n: nat, c: char)
    requires |a| == BUFFERSIZE && from < BUFFERSIZE && n < BUFFERSIZE
    ensures Window(a[Slot(from, n) := c], from, n + 1) == Window(a, from, n) + [c]
    ensures Slot(Slot(from, n), 1) == Slot(from, n + 1)
  {
  }

  lemma WindowPop(a: string, from: nat, n: nat)
    requires |a| == BUFFERSIZE && from < BUFFERSIZE && 0 < n <= BUFFERSIZE
    ensures Window(a, Slot(from, 1), n - 1) == Window(a, from, n)[1..]
    ensures Window(a, from, n)[0] == a[from]
    ensures Slot(Slot(from, 1), n - 1) == Slot(from, n)
  {
  }

  class Buffer {
    const buffer: array<char>
    var count: nat
    var readPtr: nat
    var writePtr: nat

    ghost predicate Valid()
      reads this, buffer
    {
      && buffer.Length == BUFFERSIZE
      && count <= BUFFERSIZE && readPtr < BUFFERSIZE
      && writePtr == Slot(readPtr, count)
    }

    /** What has been written and not yet read, oldest first. */
    ghost function Contents(): (s: string)
      requires Valid()
      reads this, buffer
      ensures |s| == count
    {
      Window(buffer[..], readPtr, count)
    }

    constructor ()
      ensures Valid() && fresh(buffer) && Contents() == ""
    {
      buffer := new char[BUFFERSIZE];
      count, readPtr, writePtr := 0, 0, 0;
    }

    /** The part of `memset` that concerns the ring. */
    method Clear()
      requires Valid()
      modifies this, buffer
      ensures Valid() && Contents() == ""
    {
      count, readPtr, writePtr := 0, 0, 0;
      forall i | 0 <= i < buffer.Length {
        buffer[i] := '\0';
      }
    }

    function FreeSpace(): (n: nat)
      requires Valid()
      reads this, buffer
      ensures n == BUFFERSIZE - |Contents()|
    {
      BUFFERSIZE - count
    }

    function OccupiedSpace(): (n: nat)
      requires Valid()
      reads this, buffer
      ensures n == |Contents()|
    {
      count
    }

    predicate IsFull()
      requires Valid()
      reads this, buffer
      ensures IsFull() <==> |Contents()| == BUFFERSIZE
    {
      count == BUFFERSIZE
    }

    predicate IsEmpty()
      requires Valid()
      reads this, buffer
      ensures IsEmpty() <==> Contents() == ""
    {
      count == 0
    }

    /** `fatal` says that the server logged at level FATAL, which ends the process, because the ring was full. */
    method WriteData(src: string) returns (fatal: bool)
      requires Valid()
      modifies this, buffer
      ensures Valid()
      ensures fatal <==> |old(Contents())| + |src| > BUFFERSIZE
      ensures Contents() == old(Contents()) + if fatal then src[..BUFFERSIZE - |old(Contents())|] else src
    {
      fatal := false;
      var i := 0;
      while i < |src|
        invariant Valid() && i <= |src|
        invariant Contents() == old(Contents()) + src[..i]
      {
        if IsFull() {
          return true;
        }
        WindowPush(buffer[..], readPtr, count, src[i]);
        ghost var ring := buffer[..];
        buffer[writePtr] := src[i];
        assert buffer[..] == ring[writePtr := src[i]];
        assert Slot(writePtr, 1) == (writePtr + 1) % BUFFERSIZE;
        writePtr := (writePtr + 1) % BUFFERSIZE;
        count := count + 1;
        assert src[..i + 1] == src[..i] + [src[i]];
        i := i + 1;
      }
    }

    method ReadData(dest: array<char>, len: nat) returns (bytesRead: nat)
      requires Valid() && dest != buffer && len <= dest.Length
      modifies this, dest
      ensures Valid()
      ensures bytesRead == Min(len, |old(Contents())|)
      ensures dest[..bytesRead] == old(Contents())[..bytesRead] && dest[bytesRead..] == old(dest[bytesRead..])
      ensures Contents() == old(Contents())[bytesRead..]
    {
      hide Window;
      bytesRead := 0;
      var readingData := true;
      var i := 0;
      while readingData && i < len
        invariant Valid() && bytesRead <= i <= len
        invariant bytesRead <= |old(Contents())| && buffer[..] == old(buffer[..])
        invariant if readingData then bytesRead == i else Contents() == ""
        invariant Contents() == old(Contents())[bytesRead..]
        invariant dest[..bytesRead] == old(Contents())[..bytesRead] && dest[bytesRead..] == old(dest[bytesRead..])
      {
        if IsEmpty() {
          readingData := false;
        } else {
          WindowPop(buffer[..], readPtr, count);
          dest[i] := buffer[readPtr];
          assert Slot(readPtr, 1) == (readPtr + 1) % BUFFERSIZE;
          readPtr := (readPtr + 1) % BUFFERSIZE;
          count := count - 1;
          bytesRead := bytesRead + 1;
          assert old(Contents())[i..][1..] == old(Contents())[i + 1..];
          assert old(Contents())[..i + 1] == old(Contents())[..i] + [old(Contents())[i..][0]];
        }
        i := i + 1;
      }
    }
  }
}
