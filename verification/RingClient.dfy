/** Both sides of the ring buffer at work at once, through the handles. */
module RingClients {
  import opened Basics
  import opened RingSpec
  import opened RingGuarantees
  import opened RingBuffers

  /** The writer's reservation holds the message and nothing else. */
  predicate Loaded(s: Ring, message: seq<Byte>) {
    && s.writer.Some?
    && s.writer.value.size == |message|
    && s.w + |message| <= |s.buf|
    && s.buf[s.w..s.w + |message|] == message
  }

  lemma GrantedAndFilled(s: Ring, message: seq<Byte>)
    requires Inv(s) && s.writer.None? && 0 < |message|
    requires ReserveWrite(s, |message|).writer.Some? && Inv(ReserveWrite(s, |message|))
    ensures Loaded(Next(ReserveWrite(s, |message|), Fill(0, message)).ring, message)
  {
    var t := ReserveWrite(s, |message|);
    OverwriteWritten(t.buf, t.w, message);
  }

  /** Readers are offered what they were before a write reservation, skip of the tail included. */
  lemma SameHeadRun(s: Ring, n: nat)
    requires Inv(s) && Inv(ReserveWrite(s, n))
    ensures HeadRun(ReserveWrite(s, n)) == HeadRun(s)
  {
  }

  /** The sender's half: reserve and fill. */
  method Load(b: RingBuffer, message: seq<Byte>) returns (w: RingBufferWriter)
    requires b.Valid() && !b.isActiveWriter && 0 < |message|
    modifies b`writers, b`writer, b`isActiveWriter, b`writeCursor, b`tailCursor, b.buffer
    ensures b.Valid() && fresh(w) && w in b.writers
    ensures w.IsValid() <==> ReserveWrite(old(b.State()), |message|).writer.Some?
    ensures if w.IsValid() then w.owner == b && Loaded(b.State(), message) else !b.isActiveWriter
    ensures HeadRun(b.State()) == old(HeadRun(b.State()))
    ensures Contents(b.State()) == old(Contents(b.State()))
  {
    ghost var s := b.State();
    w := b.CreateWriter(|message|);
    SameHeadRun(s, |message|);
    if w.IsValid() {
      GrantedAndFilled(s, message);
      w.Fill(0, message);
    }
  }

  /** A granted writer is handed on, as to a sending function, and committed there. */
  method Submit(b: RingBuffer, w: RingBufferWriter, ghost message: seq<Byte>)
    requires b.Valid() && w in b.writers
    requires if w.IsValid() then w.owner == b && Loaded(b.State(), message) else !b.isActiveWriter
    modifies w, b`writers, b`writer, b`isActiveWriter, b`writeCursor, b`isFull
    ensures b.Valid() && !b.isActiveWriter
    ensures Contents(b.State()) == old(Contents(b.State())) + (if old(w.IsValid()) then message else [])
  {
    if w.IsValid() {
      var h := RingBufferWriter.Move(w);
      h.Commit(0);
    }
  }

  /** A reader for at most `want` bytes; a reservation being written is left alone. */
  method Open(b: RingBuffer, want: nat, ghost message: seq<Byte>) returns (r: RingBufferReader)
    requires b.Valid() && !b.isActiveReader && 0 < want
    modifies b`readers, b`reader, b`isActiveReader, b`readCursor, b`tailCursor
    ensures b.Valid() && fresh(r)
    ensures r in b.readers && if r.IsValid() then r.owner == b else !b.isActiveReader
    ensures (if r.IsValid() then r.size else 0) == GrantFor(old(b.State()), Some(want))
    ensures Loaded(old(b.State()), message) ==> Loaded(b.State(), message)
    ensures Contents(b.State()) == old(Contents(b.State()))
  {
    ReaderAvailability(b.State(), Some(want));
    r := b.CreateReader(want);
  }

  /** Both sides at once: a filled writer and a reader are out. */
  method Begin(b: RingBuffer, message: seq<Byte>, want: nat) returns (w: RingBufferWriter, r: RingBufferReader)
    requires b.Valid() && !b.isActiveWriter && !b.isActiveReader && 0 < |message| && 0 < want
    modifies b, b.buffer
    ensures b.Valid() && fresh(w) && fresh(r) && w in b.writers && r in b.readers
    ensures w.IsValid() <==> ReserveWrite(old(b.State()), |message|).writer.Some?
    ensures if w.IsValid() then w.owner == b && Loaded(b.State(), message) else !b.isActiveWriter
    ensures if r.IsValid() then r.owner == b else !b.isActiveReader
    ensures (if r.IsValid() then r.size else 0) == GrantFor(old(b.State()), Some(want))
    ensures Contents(b.State()) == old(Contents(b.State()))
  {
    w := Load(b, message);
    r := Open(b, want, message);
  }

  /** A granted reader's bytes are copied out and committed. */
  method Fetch(b: RingBuffer, r: RingBufferReader) returns (taken: seq<Byte>)
    requires b.Valid() && r in b.readers
    requires if r.IsValid() then r.owner == b else !b.isActiveReader
    modifies r, b`readCursor, b`writeCursor, b`tailCursor, b`isFull, b`isActiveReader, b`reader
    ensures b.Valid() && !b.isActiveReader
    ensures taken + Contents(b.State()) == old(Contents(b.State()))
    ensures |taken| == old(if r.IsValid() then r.size else 0)
  {
    taken := [];
    if r.IsValid() {
      taken := b.buffer[r.ptr..r.ptr + r.size];
      r.Commit(0);
    }
  }

  /**
   A message goes in while earlier bytes come out: the reader is opened beside a filled reservation, the
   writer is moved and committed under the reader, and only then is the reader committed.
   */
  method PassThrough(b: RingBuffer, message: seq<Byte>, want: nat) returns (accepted: bool, taken: seq<Byte>)
    requires b.Valid() && !b.isActiveWriter && !b.isActiveReader
    requires 0 < |message| && 0 < want
    modifies b, b.buffer
    ensures b.Valid() && !b.isActiveWriter && !b.isActiveReader
    ensures accepted <==> ReserveWrite(old(b.State()), |message|).writer.Some?
    ensures taken + Contents(b.State()) == old(Contents(b.State())) + (if accepted then message else [])
    ensures |taken| == GrantFor(old(b.State()), Some(want))
  {
    var w, r := Begin(b, message, want);
    accepted := w.IsValid();
    Submit(b, w, message);
    taken := Fetch(b, r);
  }
}
