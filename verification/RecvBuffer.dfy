/** The receive window (include/recv_buffer.h, src/recv_buffer.cpp). */
module ReceiveBuffer {
  import opened Bytes

  // The capacity after `grow`: the message size, or half as much again when the capacity already covers it.
  function Grown(capacity: int, messageSize: int): int {
    if capacity < messageSize then messageSize else capacity * 3 / 2
  }

  /** A capacity that covers the message grows by half, rounded down; a smaller one to the message. */
  lemma GrowsByHalf(capacity: int, messageSize: int)
    ensures capacity >= messageSize ==> 3 * capacity - 1 <= 2 * Grown(capacity, messageSize) <= 3 * capacity
    ensures capacity < messageSize ==> Grown(capacity, messageSize) == messageSize
  {
  }

  lemma Splice(before: seq<byte>, after: seq<byte>, start: int, end: int, offset: int, size: int)
    requires 0 <= start && 0 <= offset && 0 <= size && start + offset + size <= end <= |before| == |after|
    requires after[..start + offset] == before[..start + offset]
    requires after[start + offset..end - size] == before[start + offset + size..end]
    ensures after[start..end - size] == before[start..end][..offset] + before[start..end][offset + size..]
  {
    assert after[start..end - size] == after[..start + offset][start..] + after[start + offset..end - size];
    assert before[start..end][..offset] == before[..start + offset][start..];
    assert before[start..end][offset + size..] == before[start + offset + size..end];
  }

  lemma DropFront(s: seq<byte>, n: int)
    requires 0 <= n <= |s|
    ensures s[..0] + s[0 + n..] == s[n..]
  {
  }

  /** `start` and `end` are absolute indices into `buff`; `pos` is relative to `start`. */
  class RecvBuffer {
    var buff: array<byte>
    var start: int
    var end: int
    var pos: int
    var messageSize: int

    ghost predicate Valid()
      reads this
    {
      0 <= start <= end <= buff.Length && 0 <= pos && 0 <= messageSize
    }

    // The bytes received and not yet cut.
    ghost function Pending(): seq<byte>
      requires Valid()
      reads this, buff
    {
      buff[start..end]
    }

    predicate IsMessageFinished()
      reads this
    {
      pos >= messageSize
    }

    predicate PosAtEnd()
      reads this
    {
      pos == end
    }

    constructor ()
      ensures Valid() && fresh(buff)
      ensures buff.Length == start == end == pos == messageSize == 0
    {
      buff := new byte[0];
      start, end, pos, messageSize := 0, 0, 0, 0;
    }

    function MaxReceive(): int
      reads this
    {
      buff.Length - end
    }

    /** Moves the first `end` bytes into a larger array; the bytes past them are arbitrary. */
    method Reallocate(newSize: int)
      requires Valid() && end <= newSize
      modifies this`buff
      ensures Valid() && fresh(buff) && buff.Length == newSize
      ensures Pending() == old(Pending())
    {
      var larger := new byte[newSize];
      forall i | 0 <= i < end { larger[i] := buff[i]; }
      buff := larger;
    }

    /** Returns the place the next read writes to. */
    method Reserve(size: int) returns (chunk: int)
      requires Valid() && start == 0 && size > 0
      modifies this`buff
      ensures Valid() && Pending() == old(Pending())
      ensures chunk == end && chunk + size <= buff.Length
      ensures old(end + size <= buff.Length) ==> buff == old(buff)
      ensures old(end + size > buff.Length) ==> fresh(buff) && buff.Length == Max(end + size, messageSize)
    {
      if end + size > buff.Length {
        var newSize := Max(end + size, messageSize);
        Reallocate(newSize);
      }
      return end;
    }

    method Grow()
      requires Valid()
      modifies this`buff
      ensures Valid() && fresh(buff) && Pending() == old(Pending())
      ensures buff.Length == Grown(old(buff.Length), messageSize)
      ensures old(buff.Length) >= messageSize ==> buff.Length == old(buff.Length + buff.Length / 2)
    {
      var newSize := if buff.Length < messageSize then messageSize else buff.Length * 3 / 2;
      Reallocate(newSize);
    }

    /** `received`: accounts for bytes the read has already written after `end`. */
    method Received(bytes: nat)
      requires Valid() && messageSize > 0
      requires end + bytes <= buff.Length && pos <= buff.Length
      modifies this`end
      ensures Valid() && end == old(end) + bytes
    {
      end := end + bytes;
    }

    method AdvancePos(bytes: nat) returns (advanced: int)
      requires Valid()
      modifies this`pos
      ensures Valid() && pos == old(pos) + advanced
      ensures advanced == Min(if messageSize > old(pos) then messageSize - old(pos) else messageSize, bytes)
    {
      var limit := if messageSize > pos then messageSize - pos else messageSize;
      advanced := Min(limit, bytes);
      pos := pos + advanced;
    }

    method Memmove(dst: int, src: int, n: int)
      requires 0 <= dst <= src && 0 <= n && src + n <= buff.Length
      modifies buff
      ensures buff[dst..dst + n] == old(buff[src..src + n])
      ensures buff[..dst] == old(buff[..dst])
    {
      forall i | 0 <= i < n { buff[dst + i] := buff[src + i]; }
    }

    method CloseGap(size: int, offset: int)
      requires Valid() && size >= 0 && offset >= 0 && start + offset + size <= end
      modifies buff
      ensures buff[start..end - size] == old(Pending())[..offset] + old(Pending())[offset + size..]
    {
      ghost var before := buff[..];
      if size > 0 {
        Memmove(start + offset, start + offset + size, end - start - (offset + size));
      }
      Splice(before, buff[..], start, end, offset, size);
    }

    /** Drops `size` processed bytes that begin `offset` bytes into the window. */
    method Cut(size: int, nextMessageSize: int, offset: int := 0)
      requires Valid() && size >= 0 && nextMessageSize > 0 && offset >= 0
      requires buff.Length >= size && buff.Length >= pos
      requires pos >= offset + size
      requires start + offset + size <= end
      modifies this`start, this`end, this`pos, this`messageSize, buff
      ensures Valid() && messageSize == nextMessageSize && pos == old(pos) - size
      ensures Pending() == old(Pending())[..offset] + old(Pending())[offset + size..]
      ensures offset == 0 ==> start == old(start) + size && end == old(end)
      ensures offset > 0 ==> start == old(start) && end == old(end) - size
    {
      if offset > 0 {
        CloseGap(size, offset);
        pos := pos - size;
        end := end - size;
      } else {
        DropFront(Pending(), size);
        start := start + size;
        pos := pos - size;
      }
      messageSize := nextMessageSize;
    }

    /** The current message as far as it has been read. */
    function Get(): (chunk: seq<byte>)
      requires Valid() && start + pos <= end
      reads this, buff
      ensures chunk <= Pending() && |chunk| == pos
    {
      buff[start..start + pos]
    }

    /** On a finished message both branches drop exactly its bytes; with no bytes held the window is emptied. */
    method Reset(nextMessageSize: int)
      requires Valid() && nextMessageSize > 0
      requires end > messageSize ==> messageSize <= pos <= end - start
      modifies this`start, this`end, this`pos, this`messageSize, buff
      ensures Valid() && messageSize == nextMessageSize
      ensures old(messageSize <= pos <= end - start) ==>
                && Pending() == old(Pending())[old(messageSize)..]
                && pos == old(pos) - old(messageSize)
                && end - start - pos == old(end - start - pos)
      ensures old(end <= messageSize) ==> start == end == pos == 0
      ensures buff == old(buff)
    {
      if end > messageSize {
        Cut(messageSize, nextMessageSize);
      } else {
        pos := 0;
        start := 0;
        end := 0;
        messageSize := nextMessageSize;
      }
    }

    /** Moves the held bytes to the front of the buffer. */
    method Clean()
      requires Valid()
      modifies this`start, this`end, buff
      ensures Valid() && start == 0 && end == old(end - start)
      ensures Pending() == old(Pending()) && buff == old(buff)
    {
      if end > start && start > 0 {
        var size := end - start;
        Memmove(0, start, size);
      }
      end := end - start;
      start := 0;
    }
  }
}
