/**
 The tail-skip ring buffer as a transition system on values.

 A `Ring` holds the bytes and the fields of the source object.  `writer` and `reader` stand for an
 active flag together with the range of the one handle that owns the reservation (module RingHandles
 and the classes in module RingBuffers justify the pairing).  Every operation of the source is an
 `Event`, and `Next` is what the code does for it, ASSERTs included.
 */
module RingSpec {
  import opened Basics

  /** A range of array indices: what a handle's pointer and size denote. */
  datatype Span = Span(start: nat, size: nat)

  datatype Ring = Ring(
    buf: seq<Byte>,
    r: nat,               // m_readCursor
    w: nat,               // m_writeCursor
    tail: nat,            // m_tailCursor
    full: bool,           // m_isFull
    writer: Option<Span>,
    reader: Option<Span>
  )

  datatype Event =
    | CreateWriter(n: nat)
    | CreateAllWriter
    | Fill(offset: nat, data: seq<Byte>)  // the holder of the writer stores through its pointer
    | CommitWrite(n: nat)
    | GiveUpWriter
    | CreateReader(n: nat)
    | CreateAllReader
    | CommitRead(n: nat)
    | GiveUpReader

  /**
   `Misuse`: an ASSERT on the caller's behaviour fires (size 0, second reservation, no handle, commit
   beyond the reservation).  `Broken`: an ASSERT on the buffer's own cursors fires.  `Ok` carries the
   bytes the step commits on either side.
   */
  datatype Outcome = Ok(ring: Ring, written: seq<Byte>, read: seq<Byte>) | Misuse | Broken

  // ----- The operations -----

  function Fresh(buf: seq<Byte>): Ring {
    Ring(buf, 0, 0, |buf|, false, None, None)
  }

  predicate IsEmpty(s: Ring) {
    !s.full && s.w == s.r
  }

  /** The jump both reader constructors make first. */
  function Normalise(s: Ring): Ring {
    if s.r == s.tail then s.(r := 0, tail := |s.buf|) else s
  }

  /** CreateWriter: granted exactly when the result has a writer. */
  function ReserveWrite(s: Ring, n: nat): Ring {
    if s.full then s
    else if s.r <= s.w then
      if n <= |s.buf| - s.w then s.(writer := Some(Span(s.w, n)))
      else if n <= s.r then s.(tail := s.w, w := 0, writer := Some(Span(0, n)))
      else s
    else if n <= s.r - s.w then s.(writer := Some(Span(s.w, n)))
    else s
  }

  function ReserveAllWrite(s: Ring): Ring
    requires s.w <= |s.buf|
  {
    if s.full then s
    else
      var n := if s.r <= s.w then |s.buf| - s.w else s.r - s.w;
      if n == 0 then s else s.(writer := Some(Span(s.w, n)))
  }

  /** CreateReader after the jump; `limit` is the requested size, if any. */
  function ReserveRead(s: Ring, limit: Option<nat>): Ring
    requires s.r <= s.tail
  {
    if IsEmpty(s) then s
    else
      var run := if s.r < s.w then s.w - s.r else s.tail - s.r;
      var n := if limit.Some? then Min(limit.value, run) else run;
      if n == 0 then s else s.(reader := Some(Span(s.r, n)))
  }

  /** A commit size of 0 stands for the whole reservation. */
  function CommitSize(n: nat, h: Span): nat {
    if n == 0 then h.size else n
  }

  /** A cursor that has reached the array's end starts over. */
  function Advance(cursor: nat, capacity: nat): (c: nat)
    requires cursor <= capacity && 0 < capacity
    ensures c == if cursor == capacity then 0 else cursor
  {
    cursor % capacity
  }

  /** What a write commit of `k` bytes does to the cursors. */
  function AdvanceWrite(s: Ring, k: nat): Ring
    requires s.w + k <= |s.buf| && 0 < |s.buf|
  {
    var w' := Advance(s.w + k, |s.buf|);
    s.(w := w', full := w' == s.r)
  }

  function DoCommitWrite(s: Ring, n: nat): Outcome
    requires s.writer.Some?
  {
    var k := CommitSize(n, s.writer.value);
    if k > s.writer.value.size then Misuse
    else if s.w + k > |s.buf| || |s.buf| == 0 then Broken
    else Ok(AdvanceWrite(s.(writer := None), k), s.buf[s.w..s.w + k], [])
  }

  /** What a read commit of `k` bytes does to the cursors. */
  function AdvanceRead(s: Ring, k: nat): Ring {
    var t := Normalise(s.(r := s.r + k)).(full := false);
    if t.writer.None? && t.r == t.w then Fresh(s.buf) else t
  }

  function DoCommitRead(s: Ring, n: nat): Outcome
    requires s.reader.Some?
  {
    var k := CommitSize(n, s.reader.value);
    if k > s.reader.value.size then Misuse
    else if s.r + k > s.tail || s.tail > |s.buf| then Broken
    else Ok(AdvanceRead(s.(reader := None), k), [], s.buf[s.r..s.r + k])
  }

  function Quiet(s: Ring): Outcome {
    Ok(s, [], [])
  }

  function Next(s: Ring, e: Event): Outcome {
    match e
    case CreateWriter(n) =>
      if n == 0 || s.writer.Some? then Misuse else Quiet(ReserveWrite(s, n))
    case CreateAllWriter =>
      if s.writer.Some? then Misuse
      else if s.w > |s.buf| then Broken
      else Quiet(ReserveAllWrite(s))
    case Fill(offset, data) =>
      if s.writer.None? || offset + |data| > s.writer.value.size then Misuse
      else Quiet(s.(buf := Overwrite(s.buf, s.writer.value.start + offset, data)))
    case CommitWrite(n) =>
      if s.writer.None? then Misuse else DoCommitWrite(s, n)
    case GiveUpWriter =>
      if s.writer.None? then Misuse else Quiet(s.(writer := None))
    case CreateReader(n) =>
      if n == 0 || s.reader.Some? then Misuse
      else if s.r > s.tail then Broken
      else Quiet(ReserveRead(Normalise(s), Some(n)))
    case CreateAllReader =>
      if s.reader.Some? then Misuse
      else if s.r > s.tail then Broken
      else Quiet(ReserveRead(Normalise(s), None))
    case CommitRead(n) =>
      if s.reader.None? then Misuse else DoCommitRead(s, n)
    case GiveUpReader =>
      if s.reader.None? then Misuse else Quiet(s.(reader := None))
  }

  /** A whole run; the logs are everything committed by writers and by readers, in order. */
  function Run(s: Ring, es: seq<Event>): Outcome {
    if es == [] then Quiet(s)
    else
      var last := |es| - 1;
      match Run(s, es[..last])
      case Ok(t, written, read) =>
        (match Next(t, es[last])
         case Ok(t', a, b) => Ok(t', written + a, read + b)
         case bad => bad)
      case bad => bad
  }

  predicate Idle(s: Ring) {
    s.writer.None? && s.reader.None?
  }

  /** The ASSERTs of the buffer's destructor. */
  predicate DestructorAccepts(s: Ring) {
    s.writer.None? && s.reader.None? && IsEmpty(s)
  }

  // ----- Meaning and invariant -----

  /** The data continues at index 0 after reaching the tail cursor. */
  predicate Wrapped(s: Ring) {
    s.w < s.r || (s.w == s.r && s.full)
  }

  predicate Inv(s: Ring) {
    && s.w < |s.buf|
    && s.r < |s.buf|
    && s.r <= s.tail <= |s.buf|
    && 0 < s.tail
    && (!Wrapped(s) ==> s.tail == |s.buf|)
    && (s.full ==> s.writer.None? && (s.r == s.w || (s.r == 0 && s.tail == |s.buf|)))
    && (s.writer.Some? ==> WriterFits(s, s.writer.value))
    && (s.reader.Some? ==> ReaderFits(s, s.reader.value))
  }

  /** A writer starts at the write cursor and stays short of the read cursor or of the array's end. */
  predicate WriterFits(s: Ring, h: Span) {
    && h.start == s.w
    && 0 < h.size
    && h.start + h.size <= if s.w < s.r then s.r else |s.buf|
  }

  /** A reader starts at the read cursor and covers committed bytes only. */
  predicate ReaderFits(s: Ring, h: Span) {
    && h.start == s.r
    && 0 < h.size
    && h.start + h.size <= if Wrapped(s) then s.tail else s.w
  }

  /** The FIFO the buffer stands for. */
  function Contents(s: Ring): seq<Byte>
    requires Inv(s)
  {
    if Wrapped(s) then s.buf[s.r..s.tail] + s.buf[..s.w] else s.buf[s.r..s.w]
  }
}
