/** The ring buffer and its handles as mutable objects, tied to the transition system of RingSpec. */
module RingBuffers {
  import opened Basics
  import opened RingSpec
  import opened RingFifo

  const NULL := -1

  class RingBufferReader {
    var owner: RingBuffer?
    var ptr: int
    var size: nat

    constructor Invalid()
      ensures !IsValid()
    {
      owner, ptr, size := null, NULL, 0;
    }

    constructor (owner: RingBuffer, ptr: nat, size: nat)
      requires 0 < size
      ensures IsValid() && this.owner == owner && this.ptr == ptr && this.size == size
    {
      this.owner, this.ptr, this.size := owner, ptr, size;
    }

    predicate IsValid()
      reads this
    {
      owner != null && 0 <= ptr && 0 < size
    }

    /** Move construction: the new handle takes the reservation over and the old one becomes invalid. */
    static method Move(other: RingBufferReader) returns (h: RingBufferReader)
      requires other.IsValid() && other.owner.Valid() && other in other.owner.readers
      modifies other, other.owner`readers, other.owner`reader
      ensures fresh(h) && h.IsValid() && !other.IsValid()
      ensures h.owner == old(other.owner) && h.ptr == old(other.ptr) && h.size == old(other.size)
      ensures h.owner.Valid() && h == h.owner.reader && h.owner.readers == old(other.owner.readers) + {h}
      ensures h.owner.State() == old(other.owner.State())
    {
      var owner := other.owner;
      h := new RingBufferReader(owner, other.ptr, other.size);
      other.Clear();
      owner.readers := owner.readers + {h};
      owner.reader := h;
    }

    method Commit(readSize: nat)
      requires IsValid() && owner.Valid() && this in owner.readers && readSize <= size
      modifies this, owner`readCursor, owner`writeCursor, owner`tailCursor, owner`isFull
      modifies owner`isActiveReader, owner`reader
      ensures !IsValid() && old(owner).Valid()
      ensures var o := DoCommitRead(old(owner.State()), readSize);
              && o == Ok(old(owner).State(), [], o.read)
              && |o.read| == (if readSize == 0 then old(size) else readSize)
              && o.read + Contents(old(owner).State()) == old(Contents(owner.State()))
    {
      owner.CommitRead(this, readSize);
      Clear();
    }

    method GiveUp()
      requires IsValid() && owner.Valid() && this in owner.readers
      modifies this, owner`isActiveReader, owner`reader
      ensures !IsValid() && old(owner).Valid()
      ensures Next(old(owner.State()), GiveUpReader) == Ok(old(owner).State(), [], [])
    {
      owner.GiveUpReader(this);
      Clear();
    }

    /** The destructor: a reservation still held is committed whole. */
    method Destroy()
      requires IsValid() ==> owner.Valid() && this in owner.readers
      modifies this, if IsValid() then {owner} else {}
      ensures !IsValid()
      ensures old(IsValid()) ==>
                && old(owner).Valid()
                && old(owner).writers == old(owner.writers) && old(owner).readers == old(owner.readers)
                && old(owner).writer == old(owner.writer)
                && var o := DoCommitRead(old(owner.State()), 0);
                   && o == Ok(old(owner).State(), [], o.read) && |o.read| == old(size)
                   && o.read + Contents(old(owner).State()) == old(Contents(owner.State()))
    {
      if IsValid() {
        owner.CommitRead(this, 0);
      }
    }

    method Clear()
      modifies this
      ensures !IsValid()
    {
      owner, ptr, size := null, NULL, 0;
    }
  }

  class RingBufferWriter {
    var owner: RingBuffer?
    var ptr: int
    var size: nat

    constructor Invalid()
      ensures !IsValid()
    {
      owner, ptr, size := null, NULL, 0;
    }

    constructor (owner: RingBuffer, ptr: nat, size: nat)
      requires 0 < size
      ensures IsValid() && this.owner == owner && this.ptr == ptr && this.size == size
    {
      this.owner, this.ptr, this.size := owner, ptr, size;
    }

    predicate IsValid()
      reads this
    {
      owner != null && 0 <= ptr && 0 < size
    }

    static method Move(other: RingBufferWriter) returns (h: RingBufferWriter)
      requires other.IsValid() && other.owner.Valid() && other in other.owner.writers
      modifies other, other.owner`writers, other.owner`writer
      ensures fresh(h) && h.IsValid() && !other.IsValid()
      ensures h.owner == old(other.owner) && h.ptr == old(other.ptr) && h.size == old(other.size)
      ensures h.owner.Valid() && h == h.owner.writer && h.owner.writers == old(other.owner.writers) + {h}
      ensures h.owner.State() == old(other.owner.State())
    {
      var owner := other.owner;
      h := new RingBufferWriter(owner, other.ptr, other.size);
      other.Clear();
      owner.writers := owner.writers + {h};
      owner.writer := h;
    }

    /** Storing through the writer's pointer, `offset` bytes in. */
    method Fill(offset: nat, data: seq<Byte>)
      requires IsValid() && owner.Valid() && this in owner.writers && offset + |data| <= size
      modifies owner.buffer
      ensures owner.Valid()
      ensures Next(old(owner.State()), RingSpec.Fill(offset, data)) == Ok(owner.State(), [], [])
      ensures Contents(owner.State()) == old(Contents(owner.State()))
      ensures ptr + offset + |data| <= owner.buffer.Length
      ensures owner.buffer[..] == Overwrite(old(owner.buffer[..]), ptr + offset, data)
    {
      ghost var s := owner.State();
      QuietStepEffect(s, RingSpec.Fill(offset, data));
      assert s.writer == Some(Span(ptr, size));
      owner.Store(ptr + offset, data);
    }

    method Commit(writeSize: nat)
      requires IsValid() && owner.Valid() && this in owner.writers && writeSize <= size
      modifies this, owner`writeCursor, owner`isFull, owner`isActiveWriter, owner`writer
      ensures !IsValid() && old(owner).Valid()
      ensures var o := DoCommitWrite(old(owner.State()), writeSize);
              && o == Ok(old(owner).State(), o.written, [])
              && |o.written| == (if writeSize == 0 then old(size) else writeSize)
              && Contents(old(owner).State()) == old(Contents(owner.State())) + o.written
    {
      owner.CommitWrite(this, writeSize);
      Clear();
    }

    method GiveUp()
      requires IsValid() && owner.Valid() && this in owner.writers
      modifies this, owner`isActiveWriter, owner`writer
      ensures !IsValid() && old(owner).Valid()
      ensures Next(old(owner.State()), GiveUpWriter) == Ok(old(owner).State(), [], [])
    {
      owner.GiveUpWriter(this);
      Clear();
    }

    method Destroy()
      requires IsValid() ==> owner.Valid() && this in owner.writers
      modifies this, if IsValid() then {owner} else {}
      ensures !IsValid()
      ensures old(IsValid()) ==>
                && old(owner).Valid()
                && old(owner).writers == old(owner.writers) && old(owner).readers == old(owner.readers)
                && old(owner).reader == old(owner.reader)
                && var o := DoCommitWrite(old(owner.State()), 0);
                   && o == Ok(old(owner).State(), o.written, []) && |o.written| == old(size)
                   && Contents(old(owner).State()) == old(Contents(owner.State())) + o.written
    {
      if IsValid() {
        Commit(0);
      }
    }

    method Clear()
      modifies this
      ensures !IsValid()
    {
      owner, ptr, size := null, NULL, 0;
    }
  }

  /**
   Each method names in its frame the fields it may change, so that a handle of the other side, and the
   reservation it holds, come through untouched.
   */
  class RingBuffer {
    var isActiveWriter: bool
    var isActiveReader: bool
    var isFull: bool
    const buffer: array<Byte>
    var readCursor: nat
    var writeCursor: nat
    var tailCursor: nat

    ghost var writers: set<RingBufferWriter>  // every writer handle ever made for this buffer
    ghost var readers: set<RingBufferReader>
    ghost var writer: RingBufferWriter?       // the one holding the reservation
    ghost var reader: RingBufferReader?

    /** The object's value. */
    ghost function State(): Ring
      reads this, buffer, writer, reader
    {
      Ring(buffer[..], readCursor, writeCursor, tailCursor, isFull,
           if isActiveWriter && writer != null && 0 <= writer.ptr then Some(Span(writer.ptr, writer.size)) else None,
           if isActiveReader && reader != null && 0 <= reader.ptr then Some(Span(reader.ptr, reader.size)) else None)
    }

    /** Each active flag goes with exactly one valid handle, which this buffer owns. */
    ghost predicate HandlesAgree()
      reads this`isActiveWriter, this`isActiveReader, this`writer, this`reader, this`writers, this`readers
      reads writers, readers
    {
      && (isActiveWriter <==> writer != null)
      && (writer != null ==> writer in writers && writer.IsValid() && writer.owner == this)
      && (forall h :: h in writers && h.IsValid() ==> h == writer)
      && (isActiveReader <==> reader != null)
      && (reader != null ==> reader in readers && reader.IsValid() && reader.owner == this)
      && (forall h :: h in readers && h.IsValid() ==> h == reader)
    }

    ghost predicate Valid()
      reads this, buffer, writer, reader, writers, readers
    {
      HandlesAgree() && Inv(State())
    }

    constructor (capacity: nat)
      requires 0 < capacity
      ensures Valid() && fresh(buffer) && buffer.Length == capacity
      ensures writers == {} && readers == {}
      ensures State() == RingSpec.Fresh(buffer[..])
    {
      buffer := new Byte[capacity](_ => 0);
      isActiveWriter, isActiveReader, isFull := false, false, false;
      readCursor, writeCursor, tailCursor := 0, 0, capacity;
      writers, readers, writer, reader := {}, {}, null, null;
    }

    predicate IsEmpty()
      reads this
    {
      !isFull && writeCursor == readCursor
    }

    method CreateWriter(writeSize: nat) returns (h: RingBufferWriter)
      requires Valid() && 0 < writeSize && !isActiveWriter
      modifies this`writers, this`writer, this`isActiveWriter, this`writeCursor, this`tailCursor
      ensures Valid() && fresh(h) && writers == old(writers) + {h}
      ensures Next(old(State()), RingSpec.CreateWriter(writeSize)) == Ok(State(), [], [])
      ensures Contents(State()) == old(Contents(State()))
      ensures h.IsValid() <==> State().writer.Some?
      ensures h.IsValid() ==> h.owner == this && h == writer && h.size == writeSize
    {
      QuietStepEffect(State(), RingSpec.CreateWriter(writeSize));
      if isFull {
        h := InvalidWriter();
        return;
      }
      if readCursor <= writeCursor {
        if writeSize <= buffer.Length - writeCursor {
          h := ActivateWriter(writeCursor, writeSize);
          return;
        }
        if writeSize <= readCursor {
          tailCursor := writeCursor;
          writeCursor := 0;
          h := ActivateWriter(0, writeSize);
          return;
        }
      } else {
        var remainSize := readCursor - writeCursor;
        if writeSize <= remainSize {
          h := ActivateWriter(writeCursor, writeSize);
          return;
        }
      }
      h := InvalidWriter();
    }

    method InvalidWriter() returns (h: RingBufferWriter)
      requires HandlesAgree()
      modifies this`writers
      ensures fresh(h) && !h.IsValid() && writers == old(writers) + {h}
      ensures HandlesAgree() && State() == old(State())
    {
      h := new RingBufferWriter.Invalid();
      writers := writers + {h};
    }

    method ActivateWriter(at: nat, size: nat) returns (h: RingBufferWriter)
      requires HandlesAgree() && !isActiveWriter && 0 < size
      modifies this`writers, this`writer, this`isActiveWriter
      ensures fresh(h) && h.IsValid() && h.owner == this && h.ptr == at && h.size == size
      ensures writer == h && writers == old(writers) + {h}
      ensures HandlesAgree() && State() == old(State()).(writer := Some(Span(at, size)))
    {
      isActiveWriter := true;
      h := new RingBufferWriter(this, at, size);
      writers := writers + {h};
      writer := h;
    }

    method CreateAllWriter() returns (h: RingBufferWriter)
      requires Valid() && !isActiveWriter
      modifies this`writers, this`writer, this`isActiveWriter
      ensures Valid() && fresh(h) && writers == old(writers) + {h}
      ensures Next(old(State()), RingSpec.CreateAllWriter) == Ok(State(), [], [])
      ensures Contents(State()) == old(Contents(State()))
      ensures h.IsValid() <==> State().writer.Some?
      ensures h.IsValid() ==> h.owner == this && h == writer
    {
      QuietStepEffect(State(), RingSpec.CreateAllWriter);
      if isFull {
        h := InvalidWriter();
        return;
      }
      var contiguousSize: nat;
      if readCursor <= writeCursor {
        contiguousSize := buffer.Length - writeCursor;
      } else {
        contiguousSize := readCursor - writeCursor;
      }
      assert 0 < contiguousSize;  // the source's branch for 0 is never taken
      h := ActivateWriter(writeCursor, contiguousSize);
    }

    /** At the tail cursor, reading goes on at index 0. */
    method JumpAtTail()
      modifies this`readCursor, this`tailCursor
      ensures State() == Normalise(old(State()))
    {
      if readCursor == tailCursor {
        readCursor := 0;
        tailCursor := buffer.Length;
      }
    }

    /** The part CreateReader and CreateAllReader share. */
    method OpenReader(limit: Option<nat>) returns (h: RingBufferReader)
      requires Valid() && !isActiveReader && (limit.Some? ==> 0 < limit.value)
      modifies this`readers, this`reader, this`isActiveReader, this`readCursor, this`tailCursor
      ensures HandlesAgree() && fresh(h) && readers == old(readers) + {h}
      ensures State() == ReserveRead(Normalise(old(State())), limit)
      ensures h.IsValid() <==> State().reader.Some?
      ensures h.IsValid() ==> h.owner == this && h == reader
    {
      NormaliseKeeps(State());
      JumpAtTail();
      h := ReserveHead(limit);
    }

    /** Reserves the contiguous data at the read cursor, up to the limit. */
    method ReserveHead(limit: Option<nat>) returns (h: RingBufferReader)
      requires HandlesAgree() && !isActiveReader && (limit.Some? ==> 0 < limit.value)
      requires Inv(State()) && readCursor < tailCursor
      modifies this`readers, this`reader, this`isActiveReader
      ensures HandlesAgree() && fresh(h) && readers == old(readers) + {h}
      ensures State() == ReserveRead(old(State()), limit)
      ensures h.IsValid() <==> State().reader.Some?
      ensures h.IsValid() ==> h.owner == this && h == reader
    {
      if IsEmpty() {
        h := InvalidReader();
        return;
      }
      var contiguousSize: nat;
      if readCursor < writeCursor {
        contiguousSize := writeCursor - readCursor;
      } else {
        contiguousSize := tailCursor - readCursor;
      }
      var size := if limit.Some? then Min(limit.value, contiguousSize) else contiguousSize;
      assert 0 < size;  // the source's branch for 0 is never taken
      h := ActivateReader(readCursor, size);
    }

    method ActivateReader(at: nat, size: nat) returns (h: RingBufferReader)
      requires HandlesAgree() && !isActiveReader && 0 < size
      modifies this`readers, this`reader, this`isActiveReader
      ensures fresh(h) && h.IsValid() && h.owner == this && h.ptr == at && h.size == size
      ensures reader == h && readers == old(readers) + {h}
      ensures HandlesAgree() && State() == old(State()).(reader := Some(Span(at, size)))
    {
      isActiveReader := true;
      h := new RingBufferReader(this, at, size);
      readers := readers + {h};
      reader := h;
    }

    method InvalidReader() returns (h: RingBufferReader)
      requires HandlesAgree()
      modifies this`readers
      ensures fresh(h) && !h.IsValid() && readers == old(readers) + {h}
      ensures HandlesAgree() && State() == old(State())
    {
      h := new RingBufferReader.Invalid();
      readers := readers + {h};
    }

    method CreateReader(readSize: nat) returns (h: RingBufferReader)
      requires Valid() && 0 < readSize && !isActiveReader
      modifies this`readers, this`reader, this`isActiveReader, this`readCursor, this`tailCursor
      ensures Valid() && fresh(h) && readers == old(readers) + {h}
      ensures Next(old(State()), RingSpec.CreateReader(readSize)) == Ok(State(), [], [])
      ensures Contents(State()) == old(Contents(State()))
      ensures h.IsValid() <==> State().reader.Some?
      ensures h.IsValid() ==> h.owner == this && h == reader
    {
      QuietStepEffect(State(), RingSpec.CreateReader(readSize));
      h := OpenReader(Some(readSize));
    }

    method CreateAllReader() returns (h: RingBufferReader)
      requires Valid() && !isActiveReader
      modifies this`readers, this`reader, this`isActiveReader, this`readCursor, this`tailCursor
      ensures Valid() && fresh(h) && readers == old(readers) + {h}
      ensures Next(old(State()), RingSpec.CreateAllReader) == Ok(State(), [], [])
      ensures Contents(State()) == old(Contents(State()))
      ensures h.IsValid() <==> State().reader.Some?
      ensures h.IsValid() ==> h.owner == this && h == reader
    {
      QuietStepEffect(State(), RingSpec.CreateAllReader);
      h := OpenReader(None);
    }

    /** Bytes stored in the array. */
    method Store(at: nat, data: seq<Byte>)
      requires at + |data| <= buffer.Length
      modifies buffer
      ensures State() == old(State()).(buf := Overwrite(old(buffer[..]), at, data))
      ensures buffer[..] == Overwrite(old(buffer[..]), at, data)
    {
      forall i | 0 <= i < |data| {
        buffer[at + i] := data[i];
      }
    }

    method GiveUpWriter(h: RingBufferWriter)
      requires Valid() && h in writers && h.IsValid()
      modifies this`isActiveWriter, this`writer, h
      ensures Valid() && !h.IsValid()
      ensures Next(old(State()), RingSpec.GiveUpWriter) == Ok(State(), [], [])
      ensures Contents(State()) == old(Contents(State()))
    {
      assert isActiveWriter;  // ASSERT "No active writer"
      ReleaseWriter(h);
    }

    method GiveUpReader(h: RingBufferReader)
      requires Valid() && h in readers && h.IsValid()
      modifies this`isActiveReader, this`reader, h
      ensures Valid() && !h.IsValid()
      ensures Next(old(State()), RingSpec.GiveUpReader) == Ok(State(), [], [])
      ensures Contents(State()) == old(Contents(State()))
    {
      assert isActiveReader;  // ASSERT "No active reader"
      ReleaseReader(h);
    }

    method CommitWrite(h: RingBufferWriter, writeSize: nat)
      requires Valid() && h in writers && h.IsValid() && writeSize <= h.size
      modifies this`writeCursor, this`isFull, this`isActiveWriter, this`writer, h
      ensures Valid() && !h.IsValid() && isFull == (writeCursor == readCursor)
      ensures var o := DoCommitWrite(old(State()), writeSize);
              && o == Ok(State(), o.written, [])
              && |o.written| == (if writeSize == 0 then old(h.size) else writeSize)
              && Contents(State()) == old(Contents(State())) + o.written
    {
      assert isActiveWriter;  // ASSERT "No active writer"
      CommitWriteEffect(State(), writeSize);
      var n := if writeSize == 0 then h.size else writeSize;
      assert writeCursor + n <= buffer.Length;  // ASSERT "Write cursor overflow"
      FinishWrite(h, n);
    }

    /** The cursors, the flags and the handle of a write commit of n bytes. */
    method FinishWrite(h: RingBufferWriter, n: nat)
      requires HandlesAgree() && h == writer
      requires writeCursor + n <= buffer.Length && 0 < buffer.Length
      modifies this`writeCursor, this`isFull, this`isActiveWriter, this`writer, h
      ensures HandlesAgree() && !h.IsValid()
      ensures State() == AdvanceWrite(old(State()).(writer := None), n)
    {
      writeCursor := Advance(writeCursor + n, buffer.Length);
      isFull := writeCursor == readCursor;
      ReleaseWriter(h);
    }

    /** Lowers the writer flag and clears the handle that held the reservation. */
    method ReleaseWriter(h: RingBufferWriter)
      requires HandlesAgree() && h == writer
      modifies this`isActiveWriter, this`writer, h
      ensures HandlesAgree() && !h.IsValid()
      ensures State() == old(State()).(writer := None)
    {
      isActiveWriter := false;
      h.Clear();
      writer := null;
    }

    method CommitRead(h: RingBufferReader, readSize: nat)
      requires Valid() && h in readers && h.IsValid() && readSize <= h.size
      modifies this`readCursor, this`writeCursor, this`tailCursor, this`isFull, this`isActiveReader, this`reader, h
      ensures Valid() && !h.IsValid() && !isFull
      ensures var o := DoCommitRead(old(State()), readSize);
              && o == Ok(State(), [], o.read)
              && |o.read| == (if readSize == 0 then old(h.size) else readSize)
              && o.read + Contents(State()) == old(Contents(State()))
    {
      assert isActiveReader;  // ASSERT "No active reader"
      CommitReadEffect(State(), readSize);
      var n := if readSize == 0 then h.size else readSize;
      assert readCursor + n <= tailCursor;  // ASSERT "Read cursor overflow"
      FinishRead(h, n);
    }

    /** The cursors, the flags and the handle of a read commit of n bytes. */
    method FinishRead(h: RingBufferReader, n: nat)
      requires HandlesAgree() && h == reader
      requires readCursor + n <= tailCursor
      modifies this`writeCursor, this`readCursor, this`tailCursor, this`isFull, this`isActiveReader, this`reader, h
      ensures HandlesAgree() && !h.IsValid()
      ensures State() == AdvanceRead(old(State()).(reader := None), n)
    {
      ReleaseReader(h);
      AdvanceReadCursor(n);
    }

    /** The cursor part of CommitRead. */
    method AdvanceReadCursor(n: nat)
      requires HandlesAgree() && !isActiveReader && readCursor + n <= tailCursor
      modifies this`writeCursor, this`readCursor, this`tailCursor, this`isFull
      ensures State() == AdvanceRead(old(State()), n)
    {
      readCursor := readCursor + n;
      JumpAtTail();
      isFull := false;
      if !isActiveWriter && readCursor == writeCursor {
        Clear();
      }
    }

    /** Lowers the reader flag and clears the handle that held the reservation. */
    method ReleaseReader(h: RingBufferReader)
      requires HandlesAgree() && h == reader
      modifies this`isActiveReader, this`reader, h
      ensures HandlesAgree() && !h.IsValid()
      ensures State() == old(State()).(reader := None)
    {
      isActiveReader := false;
      h.Clear();
      reader := null;
    }

    method Clear()
      requires !isActiveWriter && !isActiveReader
      modifies this`writeCursor, this`readCursor, this`tailCursor, this`isFull
      ensures writeCursor == 0 && readCursor == 0 && tailCursor == buffer.Length && !isFull
    {
      writeCursor := 0;
      readCursor := 0;
      tailCursor := buffer.Length;
      isFull := false;
    }
  }
}
