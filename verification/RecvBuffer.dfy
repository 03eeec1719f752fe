/** The receive buffer: a fixed array with a read and a write cursor, compacted in place. */
module RecvBuffers {
  import opened Bytes

  /** The capacity is this many times the buffer size. */
  const CAPACITY_FACTOR: nat := 10

  /** The two cursors, and how many bytes compaction has copied so far. */
  datatype Cursors = Cursors(readPos: nat, writePos: nat, moved: nat) {
    predicate Within(bufferSize: nat) {
      readPos <= writePos <= CAPACITY_FACTOR * bufferSize
    }

    function FreeSize(bufferSize: nat): nat
      requires Within(bufferSize)
    {
      CAPACITY_FACTOR * bufferSize - writePos
    }

    /** Where Clean leaves the cursors. */
    function Cleaned(bufferSize: nat): (c: Cursors)
      requires Within(bufferSize)
      ensures c.Within(bufferSize)
      ensures c.writePos - c.readPos == writePos - readPos
    {
      if readPos == writePos then Cursors(0, 0, moved)
      else if FreeSize(bufferSize) < bufferSize then
        Cursors(0, writePos - readPos, moved + (writePos - readPos))
      else this
    }
  }

  /** The three cases of Clean: nothing unread, room enough, and a copy of all unread bytes to the front. */
  lemma CleanedExactly(c: Cursors, bufferSize: nat)
    requires c.Within(bufferSize)
    ensures var unread, room, c' := c.writePos - c.readPos, CAPACITY_FACTOR * bufferSize - c.writePos, c.Cleaned(bufferSize);
      && c'.readPos == (if unread > 0 && room >= bufferSize then c.readPos else 0)
      && c'.writePos == c'.readPos + unread
      && c'.moved == c.moved + (if room < bufferSize then unread else 0)
  {
  }

  class RecvBuffer {
    const bufferSize: nat
    const data: array<byte>
    var readPos: nat
    var writePos: nat
    ghost var moved: nat

    ghost predicate Valid()
      reads this
    {
      data.Length == CAPACITY_FACTOR * bufferSize && readPos <= writePos <= data.Length
    }

    function DataSize(): nat
      requires Valid()
      reads this
    {
      writePos - readPos
    }

    function FreeSize(): nat
      requires Valid()
      reads this
    {
      data.Length - writePos
    }

    /** The bytes received and not yet consumed. */
    ghost function Window(): (s: seq<byte>)
      requires Valid()
      reads this, data
      ensures |s| == DataSize()
    {
      data[readPos..writePos]
    }

    ghost function Position(): (c: Cursors)
      requires Valid()
      reads this
      ensures c.Within(bufferSize)
    {
      Cursors(readPos, writePos, moved)
    }

    constructor (size: nat)
      ensures Valid() && fresh(data)
      ensures bufferSize == size && Position() == Cursors(0, 0, 0)
    {
      bufferSize := size;
      data := new byte[CAPACITY_FACTOR * size](_ => 0);
      readPos, writePos, moved := 0, 0, 0;
    }

    /** The socket layer stores a chunk at the write cursor; the cursor has not moved yet. */
    method Fill(chunk: seq<byte>)
      requires Valid() && |chunk| <= FreeSize()
      modifies data
      ensures Valid() && Window() == old(Window())
      ensures data[writePos..writePos + |chunk|] == chunk
    {
      var i := 0;
      while i < |chunk|
        invariant 0 <= i <= |chunk|
        invariant data[..writePos] == old(data[..writePos])
        invariant data[writePos..writePos + i] == chunk[..i]
      {
        data[writePos + i] := chunk[i];
        i := i + 1;
      }
      assert Window() == data[..writePos][readPos..];
    }

    method OnWrite(numOfBytes: nat) returns (ok: bool)
      requires Valid()
      modifies `writePos
      ensures Valid()
      ensures ok == (numOfBytes <= old(FreeSize()))
      ensures writePos == old(writePos) + (if ok then numOfBytes else 0)
      ensures Window() == old(Window()) + data[old(writePos)..writePos]
    {
      if numOfBytes > FreeSize() {
        return false;
      }
      writePos := writePos + numOfBytes;
      return true;
    }

    method OnRead(numOfBytes: nat) returns (ok: bool)
      requires Valid()
      modifies `readPos
      ensures Valid()
      ensures ok == (numOfBytes <= old(DataSize()))
      ensures readPos == old(readPos) + (if ok then numOfBytes else 0)
      ensures ok ==> Window() == old(Window())[numOfBytes..]
      ensures !ok ==> Window() == old(Window())
    {
      if numOfBytes > DataSize() {
        return false;
      }
      readPos := readPos + numOfBytes;
      return true;
    }

    /** Compaction keeps the unread bytes, although source and target of the copy may overlap. */
    method Clean()
      requires Valid()
      modifies `readPos, `writePos, `moved, data
      ensures Valid()
      ensures Window() == old(Window())
      ensures Position() == old(Position()).Cleaned(bufferSize)
      ensures old(readPos == writePos) ==> readPos == writePos == 0 && moved == old(moved) && data[..] == old(data[..])
      ensures old(readPos < writePos && data.Length - writePos >= bufferSize) ==>
        && readPos == old(readPos) && writePos == old(writePos) && moved == old(moved) && data[..] == old(data[..])
      ensures old(readPos < writePos && data.Length - writePos < bufferSize) ==>
        readPos == 0 && writePos == old(writePos - readPos) && moved == old(moved) + writePos
    {
      var dataSize := DataSize();
      if dataSize == 0 {
        readPos, writePos := 0, 0;
      } else {
        if FreeSize() < bufferSize {
          var i := 0;
          while i < dataSize
            invariant 0 <= i <= dataSize
            invariant forall k :: 0 <= k < i ==> data[k] == old(data[readPos + k])
            invariant forall k :: i <= k < data.Length ==> data[k] == old(data[k])
            invariant moved == old(moved) + i
            modifies data, `moved
          {
            data[i] := data[readPos + i];
            moved := moved + 1;
            i := i + 1;
          }
          readPos := 0;
          writePos := dataSize;
        }
      }
    }
  }
}
