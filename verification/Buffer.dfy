/** The input and output buffer: a byte vector with a readable range that moves along it. */
module Buffers {
  import opened Bytes

  const CHEAP_PREPEND := 8
  const INITIAL_SIZE := 1024
  const EXTRA_SIZE := 65536

  const CR: Byte := 13
  const LF: Byte := 10

  /** `bytes` written over `data` from position `at`. */
  function Overwrite(data: seq<Byte>, at: nat, bytes: seq<Byte>): seq<Byte>
    requires at + |bytes| <= |data|
  {
    data[..at] + bytes + data[at + |bytes|..]
  }

  /** `readv` on the two segments: an error, or bytes that fill the first before the second. */
  datatype ReadResult = Failed(errno: int) | Got(bytes: seq<Byte>)

  class Buffer {
    var data: seq<Byte>
    var readerIndex: nat
    var writerIndex: nat

    predicate Valid()
      reads this
    {
      readerIndex <= writerIndex <= |data| && CHEAP_PREPEND <= writerIndex
    }

    /** The readable bytes. */
    function Contents(): seq<Byte>
      requires Valid()
      reads this
    {
      data[readerIndex..writerIndex]
    }

    constructor ()
      ensures Valid() && Contents() == [] && readerIndex == CHEAP_PREPEND && Writable() == INITIAL_SIZE
    {
      data := seq(CHEAP_PREPEND + INITIAL_SIZE, _ => 0);
      readerIndex, writerIndex := CHEAP_PREPEND, CHEAP_PREPEND;
    }

    function Readable(): nat
      requires Valid()
      reads this
    {
      writerIndex - readerIndex
    }

    function Writable(): nat
      requires Valid()
      reads this
    {
      |data| - writerIndex
    }

    /** The first CR LF among the readable bytes, as a distance from the reader. */
    method FindCRLF() returns (found: bool, at: nat)
      requires Valid()
      ensures found ==> at + 1 < |Contents()| && Contents()[at] == CR && Contents()[at + 1] == LF
      ensures found ==> forall i :: 0 <= i < at ==> Contents()[i] != CR || Contents()[i + 1] != LF
      ensures !found ==> forall i :: 0 <= i < |Contents()| - 1 ==> Contents()[i] != CR || Contents()[i + 1] != LF
    {
      at := 0;
      while at + 1 < writerIndex - readerIndex
        invariant forall i :: 0 <= i < at && i < |Contents()| - 1 ==> Contents()[i] != CR || Contents()[i + 1] != LF
      {
        if data[readerIndex + at] == CR && data[readerIndex + at + 1] == LF {
          return true, at;
        }
        at := at + 1;
      }
      found := false;
    }

    method Retrieve(len: nat)
      requires Valid() && len <= Readable()
      modifies this`readerIndex
      ensures Valid() && Contents() == old(Contents())[len..]
    {
      readerIndex := readerIndex + len;
    }

    method RetrieveAll()
      requires Valid()
      modifies this`readerIndex, this`writerIndex
      ensures Valid() && Contents() == []
    {
      readerIndex, writerIndex := CHEAP_PREPEND, CHEAP_PREPEND;
    }

    method RetrieveAsString(len: nat) returns (s: seq<Byte>)
      requires Valid() && len <= Readable()
      modifies this`readerIndex
      ensures Valid() && s == old(Contents())[..len] && Contents() == old(Contents())[len..]
    {
      s := data[readerIndex..readerIndex + len];
      Retrieve(len);
    }

    /** `std::copy` of the readable bytes down to position `to`: forward, over itself where the two overlap. */
    method MoveDown(to: nat)
      requires Valid() && to <= readerIndex
      modifies this`data
      ensures Valid() && |data| == old(|data|)
      ensures data[to..to + (writerIndex - readerIndex)] == old(Contents())
    {
      var i := 0;
      var n := writerIndex - readerIndex;
      while i < n
        invariant 0 <= i <= n && |data| == old(|data|)
        invariant forall k {:trigger data[k]} :: to <= k < to + i ==> data[k] == old(data)[readerIndex + k - to]
        invariant forall k {:trigger data[k]} :: to + i <= k < |data| ==> data[k] == old(data)[k]
      {
        data := data[to + i := data[readerIndex + i]];
        i := i + 1;
      }
    }

    /** Grows the vector, or moves the readable bytes to the front: the contents stay, and `len` more fit. */
    method MakeSpace(len: nat)
      requires Valid() && Writable() < len
      modifies this
      ensures Valid() && Contents() == old(Contents()) && Writable() >= len
      ensures readerIndex >= CHEAP_PREPEND || readerIndex == old(readerIndex)
      ensures if old(Writable()) + old(readerIndex) < len + CHEAP_PREPEND
              then readerIndex == old(readerIndex) && |data| == writerIndex + len
              else readerIndex == CHEAP_PREPEND && |data| == |old(data)|
    {
      if Writable() + readerIndex < len + CHEAP_PREPEND {
        data := data[..writerIndex] + seq(len, _ => 0);
      } else {
        assert CHEAP_PREPEND < readerIndex;
        var readable := Readable();
        MoveDown(CHEAP_PREPEND);
        readerIndex := CHEAP_PREPEND;
        writerIndex := readerIndex + readable;
      }
    }

    method EnsureWritableBytes(len: nat)
      requires Valid()
      modifies this
      ensures Valid() && Contents() == old(Contents()) && Writable() >= len
      ensures readerIndex >= CHEAP_PREPEND || readerIndex == old(readerIndex)
    {
      if Writable() < len {
        MakeSpace(len);
      }
    }

    /** `hasWritten` after the bytes were placed behind the writer. */
    method Place(bytes: seq<Byte>)
      requires Valid() && Writable() >= |bytes|
      modifies this`data, this`writerIndex
      ensures Valid() && Contents() == old(Contents()) + bytes
    {
      data := Overwrite(data, writerIndex, bytes);
      writerIndex := writerIndex + |bytes|;
    }

    method Append(bytes: seq<Byte>)
      requires Valid()
      modifies this
      ensures Valid() && Contents() == old(Contents()) + bytes
      ensures readerIndex >= CHEAP_PREPEND || readerIndex == old(readerIndex)
    {
      EnsureWritableBytes(|bytes|);
      Place(bytes);
    }

    method Prepend(bytes: seq<Byte>)
      requires Valid() && |bytes| <= readerIndex
      modifies this`data, this`readerIndex
      ensures Valid() && Contents() == bytes + old(Contents())
    {
      readerIndex := readerIndex - |bytes|;
      data := Overwrite(data, readerIndex, bytes);
    }

    method AppendInt32(x: Int32)
      requires Valid()
      modifies this
      ensures Valid() && Contents() == old(Contents()) + Encode32(x)
      ensures readerIndex >= CHEAP_PREPEND || readerIndex == old(readerIndex)
    {
      Append(Encode32(x));
    }

    function PeekInt32(): Int32
      requires Valid() && Readable() >= 4
      reads this
    {
      Decode32(data[readerIndex..writerIndex])
    }

    /** The scatter read: whatever arrives, in either or both segments, is appended. */
    method ReadFd(k: ReadResult) returns (n: int)
      requires Valid() && (k.Got? ==> |k.bytes| <= Writable() + EXTRA_SIZE)
      modifies this
      ensures Valid() && Contents() == old(Contents()) + (if k.Got? then k.bytes else [])
      ensures n == if k.Got? then |k.bytes| else -1
    {
      match k
      case Failed(_) => n := -1;
      case Got(bytes) =>
        var writable := Writable();
        n := |bytes|;
        if n <= writable {
          Place(bytes);
        } else {
          Place(bytes[..writable]);
          Append(bytes[writable..]);
          assert bytes == bytes[..writable] + bytes[writable..];
        }
    }
  }
}
