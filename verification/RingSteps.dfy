/** Each operation of the ring buffer by its effect on the fields: which calls are refused, and what moves. */
module RingSteps {
  import opened Basics
  import opened RingSpec
  import opened RingFifo

  /** The ASSERTs that fire are those on the caller: size 0, a second reservation, none at all, or too much of it. */
  lemma MisuseExactly(s: Ring, e: Event)
    requires Inv(s)
    ensures Next(s, e) != Broken
    ensures e.CreateWriter? ==> (Next(s, e) == Misuse <==> e.n == 0 || s.writer.Some?)
    ensures e.CreateReader? ==> (Next(s, e) == Misuse <==> e.n == 0 || s.reader.Some?)
    ensures e.CreateAllWriter? ==> (Next(s, e) == Misuse <==> s.writer.Some?)
    ensures e.CreateAllReader? ==> (Next(s, e) == Misuse <==> s.reader.Some?)
    ensures e.GiveUpWriter? ==> (Next(s, e) == Misuse <==> s.writer.None?)
    ensures e.GiveUpReader? ==> (Next(s, e) == Misuse <==> s.reader.None?)
    ensures e.CommitWrite? ==> (Next(s, e) == Misuse <==> s.writer.None? || s.writer.value.size < e.n)
    ensures e.CommitRead? ==> (Next(s, e) == Misuse <==> s.reader.None? || s.reader.value.size < e.n)
    ensures e.Fill? ==> (Next(s, e) == Misuse <==> s.writer.None? || s.writer.value.size < e.offset + |e.data|)
  {
    StepIsFifo(s, e);
  }

  // ----- Reserving and giving up -----

  /**
   A grant starts at the write cursor; only when the request does not fit before the array's end does it go to
   index 0 instead, with the tail cursor left where writing stopped.  A refusal changes nothing.
   */
  lemma WriterPlace(s: Ring, n: nat)
    requires Inv(s) && s.writer.None? && 0 < n
    ensures var t := Next(s, CreateWriter(n)).ring;
            t == if t.writer.None? then s
                 else if s.r <= s.w && |s.buf| - s.w < n then s.(w := 0, tail := s.w, writer := Some(Span(0, n)))
                 else s.(writer := Some(Span(s.w, n)))
  {
  }

  /** Opening a reader touches the read and tail cursors only, and those only to jump from the tail to index 0. */
  lemma {:induction false} ReaderFrame(s: Ring, e: Event)
    requires Inv(s) && s.reader.None? && (e.CreateAllReader? || (e.CreateReader? && 0 < e.n))
    ensures Next(s, e).Ok?
    ensures Next(s, e).ring.(reader := None) == if s.r < s.tail then s else s.(r := 0, tail := |s.buf|)
  {
    NormaliseKeeps(s);
  }

  lemma GiveUpKeepsAll(s: Ring)
    requires Inv(s)
    ensures s.writer.Some? ==> Next(s, GiveUpWriter) == Ok(s.(writer := None), [], [])
    ensures s.reader.Some? ==> Next(s, GiveUpReader) == Ok(s.(reader := None), [], [])
  {
  }

  // ----- Storing -----

  /** A store lands `offset` bytes into the reservation and nowhere else. */
  lemma FillPlace(s: Ring, offset: nat, data: seq<Byte>)
    requires Inv(s) && Next(s, Fill(offset, data)).Ok?
    ensures var t := Next(s, Fill(offset, data)).ring;
            var at := s.writer.value.start + offset;
            && at + |data| <= |s.buf|
            && t == s.(buf := s.buf[..at] + data + s.buf[at + |data|..])
  {
    OverwriteIsSplice(s.buf, s.writer.value.start + offset, data);
  }

  // ----- Committing -----

  /** A commit of n bytes commits n, one of 0 the whole reservation; the flag says whether the cursors have met. */
  lemma CommitWriteExactly(s: Ring, n: nat)
    requires Inv(s) && s.writer.Some? && n <= s.writer.value.size
    ensures var k := if n == 0 then s.writer.value.size else n;
            var w := (s.w + k) % |s.buf|;
            && s.w + k <= |s.buf|
            && Next(s, CommitWrite(n)) == Ok(s.(w := w, full := w == s.r, writer := None), s.buf[s.w..s.w + k], [])
  {
    CommitWriteEffect(s, n);
  }

  /**
   Likewise for reading.  If that empties the FIFO and no writer is out, the buffer is as constructed; otherwise
   the read cursor moves on, from the tail to index 0, and the flag is down.
   */
  lemma CommitReadExactly(s: Ring, n: nat)
    requires Inv(s) && s.reader.Some? && n <= s.reader.value.size
    ensures var k := if n == 0 then s.reader.value.size else n;
            var o := Next(s, CommitRead(n));
            && s.r + k <= s.tail
            && o.Ok? && o.written == [] && o.read == s.buf[s.r..s.r + k]
            && o.ring == if k == |Contents(s)| && s.writer.None? then Fresh(s.buf)
                         else if s.r + k == s.tail then s.(r := 0, tail := |s.buf|, full := false, reader := None)
                         else s.(r := s.r + k, full := false, reader := None)
  {
    CommitReadEffect(s, n);
  }

  // ----- The full flag -----

  /** Only commits move m_isFull: a write commit to whether the cursors have met, a read commit down. */
  lemma {:induction false} FlagStep(s: Ring, e: Event)
    requires Inv(s) && Next(s, e).Ok?
    ensures var t := Next(s, e).ring;
            t.full <==> if e.CommitWrite? then t.w == t.r else if e.CommitRead? then false else s.full
  {
    MisuseExactly(s, e);
    if e.CommitWrite? {
      CommitWriteExactly(s, e.n);
    } else if e.CommitRead? {
      CommitReadExactly(s, e.n);
    }
  }

  /** The last commit of the run was a write commit, and it brought the write cursor to the read cursor. */
  predicate LastCommitFilled(s: Ring, es: seq<Event>) {
    es != [] &&
    var last := |es| - 1;
    if es[last].CommitWrite? then Run(s, es).Ok? && Run(s, es).ring.w == Run(s, es).ring.r
    else !es[last].CommitRead? && LastCommitFilled(s, es[..last])
  }

  /** Over every run the flag tells how the last commit ended, whatever the cursors have done since. */
  lemma {:induction false} FlagIsLastCommit(buf: seq<Byte>, es: seq<Event>)
    requires |buf| > 0 && Run(Fresh(buf), es).Ok?
    ensures Run(Fresh(buf), es).ring.full <==> LastCommitFilled(Fresh(buf), es)
  {
    if es != [] {
      var last := |es| - 1;
      FlagIsLastCommit(buf, es[..last]);
      FifoRefinement(buf, es[..last]);
      FlagStep(Run(Fresh(buf), es[..last]).ring, es[last]);
    }
  }
}
