/**
  The growable byte buffer with prependable space. Its meaning is one byte string, `Readable()`;
  every operation is stated as an operation on that string.
 */
module Buffers {
  import opened Bytes

  const CHEAP_PREPEND_SIZE: nat := 8
  const INITIAL_BUFFER_SIZE: nat := 4096
  const EXTRA_BUFFER_SIZE: nat := 1024 * 1024

  class Buffer {
    var buffer: array<Byte>
    var readerIndex: nat
    var writeIndex: nat

    ghost predicate Valid()
      reads this
    {
      readerIndex <= writeIndex <= buffer.Length && CHEAP_PREPEND_SIZE <= buffer.Length
    }

    ghost function Readable(): (bs: seq<Byte>)
      requires Valid()
      reads this, buffer
      ensures |bs| == writeIndex - readerIndex
    {
      buffer[readerIndex..writeIndex]
    }

    constructor (initialSize: nat)
      ensures Valid() && fresh(buffer) && Readable() == []
      ensures readerIndex == 8 && WriteableBytes() == initialSize
    {
      buffer := new Byte[CHEAP_PREPEND_SIZE + initialSize](_ => 0);
      readerIndex, writeIndex := CHEAP_PREPEND_SIZE, CHEAP_PREPEND_SIZE;
    }

    function ReadableBytes(): (n: nat)
      requires Valid()
      reads this, buffer
      ensures n == |Readable()|
    {
      writeIndex - readerIndex
    }

    function WriteableBytes(): nat
      requires Valid()
      reads this
    {
      buffer.Length - writeIndex
    }

    function PrependableBytes(): nat
      reads this
    {
      readerIndex
    }

    method RetrieveAll()
      requires Valid()
      modifies this`readerIndex, this`writeIndex
      ensures Valid() && Readable() == [] && readerIndex == 8
    {
      readerIndex, writeIndex := CHEAP_PREPEND_SIZE, CHEAP_PREPEND_SIZE;
    }

    method Retrieve(len: nat)
      requires Valid() && len <= |Readable()|
      modifies this`readerIndex, this`writeIndex
      ensures Valid() && Readable() == old(Readable())[len..]
    {
      if len < ReadableBytes() {
        readerIndex := readerIndex + len;
      } else {
        RetrieveAll();
      }
    }

    method RetrieveAsString(len: nat) returns (result: seq<Byte>)
      requires Valid() && len <= |Readable()|
      modifies this`readerIndex, this`writeIndex
      ensures Valid() && result == old(Readable())[..len] && Readable() == old(Readable())[len..]
    {
      result := buffer[readerIndex..readerIndex + len];
      assert result == Readable()[..len];
      Retrieve(len);
    }

    /** Publishes `len` bytes already stored behind the write index. */
    method HasWritten(len: nat)
      requires Valid() && len <= WriteableBytes()
      modifies this`writeIndex
      ensures Valid() && Readable() == old(Readable()) + old(buffer[writeIndex..writeIndex + len])
      ensures writeIndex == old(writeIndex) + len
    {
      writeIndex := writeIndex + len;
    }

    method UnWrite(len: nat)
      requires Valid() && len <= |Readable()|
      modifies this`writeIndex
      ensures Valid() && Readable() == old(Readable())[..|old(Readable())| - len]
    {
      writeIndex := writeIndex - len;
    }

    /**
      Makes room behind the write index, by growing the storage or by moving the readable bytes
      down to offset 8. The readable bytes stay; in the second branch the source's own assertion
      that the reader index lies past offset 8 always holds, whatever was prepended before.
     */
    method MakeSpace(len: nat)
      requires Valid() && WriteableBytes() < len
      modifies this, buffer
      ensures Valid() && Readable() == old(Readable()) && len <= WriteableBytes()
      ensures buffer == old(buffer) || fresh(buffer)
      ensures readerIndex == old(readerIndex) || readerIndex == CHEAP_PREPEND_SIZE
    {
      if WriteableBytes() + PrependableBytes() < len + CHEAP_PREPEND_SIZE {
        var grown := new Byte[writeIndex + len](_ => 0);
        forall i | 0 <= i < buffer.Length {
          grown[i] := buffer[i];
        }
        assert grown[readerIndex..writeIndex] == Readable();
        buffer := grown;
      } else {
        assert CHEAP_PREPEND_SIZE < readerIndex;
        MoveDown();
      }
    }

    /** The in-place copy of the readable bytes to offset 8, lowest byte first. */
    method MoveDown()
      requires Valid() && CHEAP_PREPEND_SIZE < readerIndex
      modifies this`readerIndex, this`writeIndex, buffer
      ensures Valid() && Readable() == old(Readable()) && readerIndex == CHEAP_PREPEND_SIZE
    {
      var readable := ReadableBytes();
      ghost var content := Readable();
      var i := 0;
      while i < readable
        modifies buffer
        invariant 0 <= i <= readable
        invariant buffer[CHEAP_PREPEND_SIZE..CHEAP_PREPEND_SIZE + i] == content[..i]
        invariant buffer[readerIndex + i..writeIndex] == content[i..]
      {
        assert buffer[readerIndex + i] == buffer[readerIndex + i..writeIndex][0] == content[i];
        buffer[CHEAP_PREPEND_SIZE + i] := buffer[readerIndex + i];
        i := i + 1;
      }
      readerIndex := CHEAP_PREPEND_SIZE;
      writeIndex := readerIndex + readable;
    }

    method EnsureWriteableBytes(len: nat)
      requires Valid()
      modifies this, buffer
      ensures Valid() && Readable() == old(Readable()) && len <= WriteableBytes()
      ensures buffer == old(buffer) || fresh(buffer)
      ensures readerIndex == old(readerIndex) || readerIndex == CHEAP_PREPEND_SIZE
    {
      if WriteableBytes() < len {
        MakeSpace(len);
      }
    }

    method Append(data: seq<Byte>)
      requires Valid()
      modifies this, buffer
      ensures Valid() && Readable() == old(Readable()) + data
      ensures buffer == old(buffer) || fresh(buffer)
      ensures readerIndex == old(readerIndex) || readerIndex == CHEAP_PREPEND_SIZE
    {
      EnsureWriteableBytes(|data|);
      Fill(data);
    }

    /** Copies bytes behind the write index, where there is room for them, and publishes them. */
    method Fill(data: seq<Byte>)
      requires Valid() && |data| <= WriteableBytes()
      modifies this`writeIndex, buffer
      ensures Valid() && Readable() == old(Readable()) + data
      ensures writeIndex == old(writeIndex) + |data|
    {
      ghost var content := Readable();
      Store(writeIndex, data);
      assert Readable() == content;
      HasWritten(|data|);
    }

    /** Copies bytes into the storage at an offset. */
    method Store(at: nat, data: seq<Byte>)
      requires at + |data| <= buffer.Length
      modifies buffer
      ensures buffer[at..at + |data|] == data
      ensures forall i :: 0 <= i < buffer.Length && !(at <= i < at + |data|) ==> buffer[i] == old(buffer[i])
    {
      forall i | 0 <= i < |data| {
        buffer[at + i] := data[i];
      }
    }

    method AppendInt(x: int, w: Width)
      requires Valid() && w.Holds(x)
      modifies this, buffer
      ensures Valid() && Readable() == old(Readable()) + EncodeInt(x, w)
      ensures buffer == old(buffer) || fresh(buffer)
      ensures readerIndex == old(readerIndex) || readerIndex == CHEAP_PREPEND_SIZE
    {
      Append(EncodeInt(x, w));
    }

    method PeekInt(w: Width) returns (x: int)
      requires Valid() && w.Size() <= |Readable()|
      ensures x == DecodeInt(Readable()[..w.Size()], w) && w.Holds(x)
    {
      assert buffer[readerIndex..readerIndex + w.Size()] == Readable()[..w.Size()];
      x := DecodeInt(buffer[readerIndex..readerIndex + w.Size()], w);
    }

    method ReadInt(w: Width) returns (x: int)
      requires Valid() && w.Size() <= |Readable()|
      modifies this`readerIndex, this`writeIndex
      ensures Valid() && Readable() == old(Readable())[w.Size()..]
      ensures x == DecodeInt(old(Readable())[..w.Size()], w) && w.Holds(x)
    {
      x := PeekInt(w);
      Retrieve(w.Size());
    }

    method Prepend(data: seq<Byte>)
      requires Valid() && |data| <= PrependableBytes()
      modifies this`readerIndex, buffer
      ensures Valid() && Readable() == data + old(Readable())
    {
      ghost var content := Readable();
      readerIndex := readerIndex - |data|;
      Store(readerIndex, data);
      assert Readable() == buffer[readerIndex..readerIndex + |data|] + buffer[readerIndex + |data|..writeIndex];
      assert buffer[readerIndex + |data|..writeIndex] == content;
    }

    method PrependInt(x: int, w: Width)
      requires Valid() && w.Holds(x) && w.Size() <= PrependableBytes()
      modifies this`readerIndex, buffer
      ensures Valid() && Readable() == EncodeInt(x, w) + old(Readable())
    {
      Prepend(EncodeInt(x, w));
    }

    /** What one read can bring: the writable space, and the overflow area when that is larger. */
    function ReadLimit(): nat
      requires Valid()
      reads this
    {
      WriteableBytes() + (if WriteableBytes() < EXTRA_BUFFER_SIZE then EXTRA_BUFFER_SIZE else 0)
    }

    /** One scatter read, of what the kernel delivers, or a failed one. */
    method ReadFd(got: Read) returns (n: int)
      requires Valid()
      requires got.Arrived? ==> |got.data| <= ReadLimit()
      modifies this, buffer
      ensures Valid() && (buffer == old(buffer) || fresh(buffer))
      ensures n == if got.Failed? then -1 else |got.data|
      ensures Readable() == old(Readable()) + (if got.Failed? then [] else got.data)
    {
      if got.Failed? {
        return -1;
      }
      var writeable := WriteableBytes();
      n := |got.data|;
      if n <= writeable {
        Fill(got.data);
      } else {
        Fill(got.data[..writeable]);
        Append(got.data[writeable..]);
        assert got.data == got.data[..writeable] + got.data[writeable..];
      }
    }

    method AppendAll(items: seq<Typed>)
      requires Valid() && AllHold(items)
      modifies this, buffer
      ensures Valid() && (buffer == old(buffer) || fresh(buffer))
      ensures Readable() == old(Readable()) + EncodeAll(items)
    {
      hide EncodeInt, Base;
      ghost var before := Readable();
      for i := 0 to |items|
        invariant Valid() && (buffer == old(buffer) || fresh(buffer))
        invariant before + EncodeAll(items) == Readable() + EncodeAll(items[i..])
      {
        ghost var content, first := Readable(), EncodeInt(items[i].value, items[i].width);
        assert items[i..][1..] == items[i + 1..];
        assert content + (first + EncodeAll(items[i + 1..])) == (content + first) + EncodeAll(items[i + 1..]);
        AppendInt(items[i].value, items[i].width);
      }
    }

    method ReadAll(widths: seq<Width>) returns (read: seq<Typed>)
      requires Valid() && DecodeAll(Readable(), widths).2
      modifies this`readerIndex, this`writeIndex
      ensures Valid()
      ensures read == DecodeAll(old(Readable()), widths).0
      ensures Readable() == DecodeAll(old(Readable()), widths).1
    {
      hide DecodeInt, EncodeInt, Base;
      ghost var before := Readable();
      read := [];
      ghost var expected := DecodeAll(before, widths);
      assert widths[0..] == widths;
      for i := 0 to |widths|
        invariant Valid()
        invariant var rest := DecodeAll(Readable(), widths[i..]);
                  rest.2 && expected.0 == read + rest.0 && expected.1 == rest.1
      {
        assert widths[i..][1..] == widths[i + 1..];
        var x := ReadInt(widths[i]);
        read := read + [Typed(widths[i], x)];
      }
      assert widths[|widths|..] == [] && read + [] == read;
    }

    /**
      Integers of any widths, appended to an empty buffer, come back in order with the values they
      had and leave the buffer empty, whatever moves or growth the appends caused.
     */
    method AppendThenReadAll(items: seq<Typed>) returns (read: seq<Typed>)
      requires Valid() && Readable() == [] && AllHold(items)
      modifies this, buffer
      ensures Valid() && Readable() == [] && read == items
    {
      AppendAll(items);
      ReadBackAll(items, []);
      assert Readable() == EncodeAll(items) + [];
      read := ReadAll(Widths(items));
    }
  }

  datatype Read = Arrived(data: seq<Byte>) | Failed
}
