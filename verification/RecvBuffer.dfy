/** The linear receive buffer: as a value, and as the mutable object. */
module RecvBuffers {
  import opened Basics

  /** The object's value: data sits in [readPos, writePos), free space behind it. */
  datatype Linear = Linear(buf: seq<Byte>, minWritable: nat, readPos: nat, writePos: nat)

  predicate WellFormed(l: Linear) {
    && 0 < l.minWritable <= |l.buf| / 2
    && l.readPos <= l.writePos <= |l.buf|
  }

  function Readable(l: Linear): seq<Byte>
    requires WellFormed(l)
  {
    l.buf[l.readPos..l.writePos]
  }

  function WritableSize(l: Linear): nat
    requires WellFormed(l)
  {
    |l.buf| - l.writePos
  }

  /** Bytes stored through the writable span by whoever reads the socket. */
  function Loaded(l: Linear, data: seq<Byte>): Linear {
    l.(buf := Overwrite(l.buf, l.writePos, data))
  }

  function Committed(l: Linear, n: nat): Linear {
    l.(writePos := l.writePos + n)
  }

  function Consumed(l: Linear, n: nat): Linear {
    l.(readPos := l.readPos + n)
  }

  /** Compact has to move data. */
  predicate MustMove(l: Linear)
    requires WellFormed(l)
  {
    l.readPos != l.writePos && WritableSize(l) < l.minWritable
  }

  lemma MustMoveExactly(l: Linear)
    requires WellFormed(l)
    ensures MustMove(l) <==> Readable(l) != [] && |l.buf| - l.writePos < l.minWritable
  {
  }

  function Compacted(l: Linear): Linear
    requires WellFormed(l)
  {
    if l.readPos == l.writePos then l.(readPos := 0, writePos := 0)
    else if MustMove(l) then
      l.(buf := Overwrite(l.buf, 0, Readable(l)), readPos := 0, writePos := l.writePos - l.readPos)
    else l
  }

  /** Loading and committing appends to the readable bytes. */
  lemma LoadCommitAppends(l: Linear, data: seq<Byte>)
    requires WellFormed(l) && |data| <= WritableSize(l)
    ensures WellFormed(Committed(Loaded(l, data), |data|))
    ensures Readable(Committed(Loaded(l, data), |data|)) == Readable(l) + data
  {
  }

  lemma ConsumeDrops(l: Linear, n: nat)
    requires WellFormed(l) && n <= |Readable(l)|
    ensures WellFormed(Consumed(l, n)) && Readable(Consumed(l, n)) == Readable(l)[n..]
  {
  }

  /** Compacting keeps the readable bytes and, if they leave room at all, makes enough room to write. */
  lemma CompactKeepsReadable(l: Linear)
    requires WellFormed(l)
    ensures WellFormed(Compacted(l)) && Readable(Compacted(l)) == Readable(l)
    ensures WritableSize(l) <= WritableSize(Compacted(l))
    ensures var c := Compacted(l);
            && |c.buf| == |l.buf| && c.minWritable == l.minWritable
            && (Readable(l) == [] ==> c.readPos == 0 && WritableSize(c) == |l.buf|)
            && (Readable(l) != [] && l.minWritable <= WritableSize(l) ==> c == l)
            && (Readable(l) != [] && WritableSize(l) < l.minWritable ==> c.readPos == 0)
    ensures |Readable(l)| + l.minWritable <= |l.buf| ==> l.minWritable <= WritableSize(Compacted(l))
  {
  }

  class RecvBuffer {
    const buffer: array<Byte>
    const minWritableSize: nat
    var readPos: nat
    var writePos: nat

    ghost function View(): Linear
      reads this, buffer
    {
      Linear(buffer[..], minWritableSize, readPos, writePos)
    }

    ghost predicate Valid()
      reads this, buffer
    {
      WellFormed(View())
    }

    constructor (capacity: nat, minWritableSize: nat)
      requires 0 < minWritableSize <= capacity / 2
      ensures Valid() && fresh(buffer)
      ensures buffer.Length == capacity && View() == Linear(buffer[..], minWritableSize, 0, 0)
    {
      buffer := new Byte[capacity](_ => 0);
      this.minWritableSize := minWritableSize;
      readPos, writePos := 0, 0;
    }

    function GetWritableSize(): (n: nat)
      requires Valid()
      reads this, buffer
      ensures n == WritableSize(View())
    {
      buffer.Length - writePos
    }

    function GetReadableSize(): (n: nat)
      requires Valid()
      reads this, buffer
      ensures n == |Readable(View())|
    {
      writePos - readPos
    }

    function GetReadableSpan(): (span: seq<Byte>)
      requires Valid()
      reads this, buffer
      ensures span == Readable(View())
    {
      buffer[readPos..writePos]
    }

    /** A store through the writable span. */
    method FillWritableSpan(data: seq<Byte>)
      requires Valid() && |data| <= GetWritableSize()
      modifies buffer
      ensures Valid() && View() == Loaded(old(View()), data)
      ensures Readable(View()) == old(Readable(View()))
    {
      ghost var l := View();
      forall i | 0 <= i < |data| {
        buffer[writePos + i] := data[i];
      }
      assert buffer[..] == Overwrite(l.buf, writePos, data);
      assert buffer[readPos..writePos] == l.buf[readPos..writePos];
    }

    method CommitWrite(writeSize: nat)
      requires Valid() && writeSize <= GetWritableSize()
      modifies this
      ensures Valid() && View() == Committed(old(View()), writeSize)
      ensures Readable(View()) == old(Readable(View())) + old(buffer[writePos..writePos + writeSize])
      ensures GetWritableSize() == old(GetWritableSize()) - writeSize
    {
      writePos := writePos + writeSize;
    }

    method Consume(readSize: nat)
      requires Valid() && readSize <= GetReadableSize()
      modifies this
      ensures Valid() && View() == Consumed(old(View()), readSize)
      ensures Readable(View()) == old(Readable(View()))[readSize..]
      ensures GetWritableSize() == old(GetWritableSize())
    {
      ConsumeDrops(View(), readSize);
      readPos := readPos + readSize;
    }

    method Compact()
      requires Valid()
      modifies this, buffer
      ensures Valid() && View() == Compacted(old(View()))
      ensures Readable(View()) == old(Readable(View()))
      ensures GetReadableSize() == 0 ==> GetWritableSize() == buffer.Length
    {
      ghost var l := View();
      CompactKeepsReadable(l);
      var readableSize := GetReadableSize();
      if readableSize == 0 {
        Clear();
        return;
      }
      if minWritableSize <= GetWritableSize() {
        return;
      }
      MoveToFront(readPos, readableSize);
      readPos := 0;
      writePos := readableSize;
    }

    /** memmove to the start of the buffer; the two ranges may overlap. */
    method MoveToFront(from: nat, n: nat)
      requires from + n <= buffer.Length
      modifies buffer
      ensures buffer[..] == Overwrite(old(buffer[..]), 0, old(buffer[from..from + n]))
    {
      for i := 0 to n
        invariant forall k :: 0 <= k < i ==> buffer[k] == old(buffer[from + k])
        invariant forall k :: i <= k < buffer.Length ==> buffer[k] == old(buffer[k])
      {
        buffer[i] := buffer[from + i];
      }
    }

    method Clear()
      modifies this
      ensures readPos == 0 && writePos == 0
    {
      readPos := 0;
      writePos := 0;
    }
  }
}
