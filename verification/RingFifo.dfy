/** FIFO refinement of the ring buffer: one step, then every run. */
module RingFifo {
  import opened Basics
  import opened RingSpec

  /** What every step owes: no cursor ASSERT, the invariant, and bytes only move through the two ends. */
  predicate FifoStep(s: Ring, o: Outcome)
    requires Inv(s)
  {
    && o != Broken
    && (o.Ok? ==>
          && Inv(o.ring)
          && |o.ring.buf| == |s.buf|
          && o.read + Contents(o.ring) == Contents(s) + o.written)
  }

  lemma QuietIsFifo(s: Ring, t: Ring)
    requires Inv(s) && Inv(t) && |t.buf| == |s.buf|
    requires Contents(t) == Contents(s)
    ensures FifoStep(s, Ok(t, [], []))
  {
    assert [] + Contents(t) == Contents(t) && Contents(s) + [] == Contents(s);
  }

  lemma CreateWriterKeeps(s: Ring, n: nat)
    requires Inv(s)
    ensures FifoStep(s, Next(s, CreateWriter(n)))
  {
  }

  lemma CreateAllWriterKeeps(s: Ring)
    requires Inv(s)
    ensures FifoStep(s, Next(s, CreateAllWriter))
  {
  }

  lemma NormaliseKeeps(s: Ring)
    requires Inv(s) && s.reader.None?
    ensures Inv(Normalise(s))
    ensures Contents(Normalise(s)) == Contents(s)
    ensures Normalise(s).r < Normalise(s).tail
  {
  }

  lemma ReserveReadKeeps(s: Ring, limit: Option<nat>)
    requires Inv(s) && s.reader.None? && s.r < s.tail
    ensures Inv(ReserveRead(s, limit))
    ensures Contents(ReserveRead(s, limit)) == Contents(s)
  {
  }

  lemma {:induction false} CreateReaderKeeps(s: Ring, e: Event)
    requires Inv(s) && (e.CreateReader? || e.CreateAllReader?)
    ensures FifoStep(s, Next(s, e))
  {
    if Next(s, e).Ok? {
      var limit := if e.CreateReader? then Some(e.n) else None;
      NormaliseKeeps(s);
      ReserveReadKeeps(Normalise(s), limit);
      QuietIsFifo(s, ReserveRead(Normalise(s), limit));
    }
  }

  lemma FillKeeps(s: Ring, offset: nat, data: seq<Byte>)
    requires Inv(s)
    ensures FifoStep(s, Next(s, Fill(offset, data)))
  {
    if s.writer.Some? && offset + |data| <= s.writer.value.size {
      var at := s.writer.value.start + offset;
      if Wrapped(s) {
        OverwriteElsewhere(s.buf, at, data, s.r, s.tail);
        OverwriteElsewhere(s.buf, at, data, 0, s.w);
      } else {
        OverwriteElsewhere(s.buf, at, data, s.r, s.w);
      }
      var t := s.(buf := Overwrite(s.buf, at, data));
      assert Contents(t) == Contents(s);
      QuietIsFifo(s, t);
      assert Next(s, Fill(offset, data)) == Ok(t, [], []);
    }
  }

  /** Where a write commit lands: it wraps when it reaches the array's end. */
  lemma CommitWriteTarget(s: Ring, k: nat)
    requires Inv(s) && s.writer.Some? && 0 < k <= s.writer.value.size
    ensures s.w + k <= |s.buf|
    ensures var t := AdvanceWrite(s.(writer := None), k);
            Inv(t) && Contents(t) == Contents(s) + s.buf[s.w..s.w + k]
  {
    var t := AdvanceWrite(s.(writer := None), k);
    assert Wrapped(t) <==> Wrapped(s) || s.w + k == |s.buf|;
    if Wrapped(s) {
      SliceSplit(s.buf, 0, s.w, s.w + k);
      Associative(s.buf[s.r..s.tail], s.buf[..s.w], s.buf[s.w..s.w + k]);
    } else {
      SliceSplit(s.buf, s.r, s.w, s.w + k);
    }
  }

  lemma AppendIsFifo(s: Ring, t: Ring, added: seq<Byte>)
    requires Inv(s) && Inv(t) && |t.buf| == |s.buf|
    requires Contents(t) == Contents(s) + added
    ensures FifoStep(s, Ok(t, added, []))
  {
    assert [] + Contents(t) == Contents(t);
  }

  /** A legal write commit goes through and appends the bytes it reports. */
  lemma CommitWriteEffect(s: Ring, n: nat)
    requires Inv(s) && s.writer.Some? && n <= s.writer.value.size
    ensures var k := if n == 0 then s.writer.value.size else n;
            && s.w + k <= |s.buf|
            && var t := AdvanceWrite(s.(writer := None), k);
               && DoCommitWrite(s, n) == Ok(t, s.buf[s.w..s.w + k], [])
               && Inv(t)
               && Contents(t) == Contents(s) + s.buf[s.w..s.w + k]
  {
    CommitWriteTarget(s, CommitSize(n, s.writer.value));
  }

  lemma CommitWriteAppends(s: Ring, n: nat)
    requires Inv(s)
    ensures FifoStep(s, Next(s, CommitWrite(n)))
  {
    if s.writer.Some? && n <= s.writer.value.size {
      CommitWriteEffect(s, n);
      var o := DoCommitWrite(s, n);
      AppendIsFifo(s, o.ring, o.written);
    }
  }

  /** What remains of the FIFO once its first `k` contiguous bytes are gone. */
  function Remainder(s: Ring, k: nat): seq<Byte>
    requires Inv(s) && s.reader.Some? && k <= s.reader.value.size
  {
    if Wrapped(s) then s.buf[s.r + k..s.tail] + s.buf[..s.w] else s.buf[s.r + k..s.w]
  }

  lemma ContentsSplit(s: Ring, k: nat)
    requires Inv(s) && s.reader.Some? && k <= s.reader.value.size
    ensures Contents(s) == s.buf[s.r..s.r + k] + Remainder(s, k)
  {
    if Wrapped(s) {
      SliceSplit(s.buf, s.r, s.r + k, s.tail);
      Associative(s.buf[s.r..s.r + k], s.buf[s.r + k..s.tail], s.buf[..s.w]);
    } else {
      SliceSplit(s.buf, s.r, s.r + k, s.w);
    }
  }

  /** Where a read commit lands: past the bytes taken, or at the start when the tail is reached. */
  lemma CommitReadTarget(s: Ring, k: nat)
    requires Inv(s) && s.reader.Some? && 0 < k <= s.reader.value.size
    ensures Inv(AdvanceRead(s.(reader := None), k))
    ensures Contents(AdvanceRead(s.(reader := None), k)) == Remainder(s, k)
  {
    assert Inv(AdvanceRead(s.(reader := None), k));
    if Wrapped(s) && s.r + k == s.tail {
      assert s.buf[s.r + k..s.tail] == [];
    }
  }

  lemma CommitReadFifo(s: Ring, k: nat)
    requires Inv(s) && s.reader.Some? && 0 < k <= s.reader.value.size
    ensures Inv(AdvanceRead(s.(reader := None), k))
    ensures s.buf[s.r..s.r + k] + Contents(AdvanceRead(s.(reader := None), k)) == Contents(s)
  {
    CommitReadTarget(s, k);
    ContentsSplit(s, k);
  }

  lemma CommitReadGoesThrough(s: Ring, n: nat)
    requires Inv(s) && s.reader.Some? && n <= s.reader.value.size
    ensures var k := if n == 0 then s.reader.value.size else n;
            && 0 < k && s.r + k <= s.tail <= |s.buf|
            && DoCommitRead(s, n) == Ok(AdvanceRead(s.(reader := None), k), [], s.buf[s.r..s.r + k])
            && |AdvanceRead(s.(reader := None), k).buf| == |s.buf|
  {
  }

  /** A legal read commit goes through and removes the bytes it reports. */
  lemma {:induction false} CommitReadEffect(s: Ring, n: nat)
    requires Inv(s) && s.reader.Some? && n <= s.reader.value.size
    ensures var k := if n == 0 then s.reader.value.size else n;
            var t := AdvanceRead(s.(reader := None), k);
            && s.r + k <= s.tail <= |s.buf| == |t.buf|
            && DoCommitRead(s, n) == Ok(t, [], s.buf[s.r..s.r + k])
            && Inv(t)
            && s.buf[s.r..s.r + k] + Contents(t) == Contents(s)
  {
    CommitReadGoesThrough(s, n);
    CommitReadFifo(s, CommitSize(n, s.reader.value));
  }

  lemma DropIsFifo(s: Ring, u: Ring, taken: seq<Byte>)
    requires Inv(s) && Inv(u) && |u.buf| == |s.buf|
    requires Contents(s) == taken + Contents(u)
    ensures FifoStep(s, Ok(u, [], taken))
  {
    assert Contents(s) + [] == Contents(s);
  }

  lemma {:induction false} CommitReadDrops(s: Ring, n: nat)
    requires Inv(s)
    ensures FifoStep(s, Next(s, CommitRead(n)))
  {
    if s.reader.Some? && n <= s.reader.value.size {
      CommitReadEffect(s, n);
      var o := DoCommitRead(s, n);
      DropIsFifo(s, o.ring, o.read);
    }
  }

  /** One step: no cursor ASSERT fires, and bytes leave at the front and enter at the back only. */
  lemma {:induction false} StepIsFifo(s: Ring, e: Event)
    requires Inv(s)
    ensures FifoStep(s, Next(s, e))
  {
    match e
    case CreateWriter(n) => CreateWriterKeeps(s, n);
    case CreateAllWriter => CreateAllWriterKeeps(s);
    case Fill(offset, data) => FillKeeps(s, offset, data);
    case CommitWrite(n) => CommitWriteAppends(s, n);
    case GiveUpWriter =>
    case CreateReader(n) => CreateReaderKeeps(s, e);
    case CreateAllReader => CreateReaderKeeps(s, e);
    case CommitRead(n) => CommitReadDrops(s, n);
    case GiveUpReader =>
  }

  /**
   A reservation, a store or a give-up goes through whenever the caller respects the ASSERTs, and the FIFO does
   not notice.
   */
  lemma {:induction false} QuietStepEffect(s: Ring, e: Event)
    requires Inv(s) && !e.CommitWrite? && !e.CommitRead? && Next(s, e) != Misuse
    ensures Next(s, e) == Ok(Next(s, e).ring, [], [])
    ensures Inv(Next(s, e).ring) && Contents(Next(s, e).ring) == Contents(s)
  {
    StepIsFifo(s, e);
    var t := Next(s, e).ring;
    assert [] + Contents(t) == Contents(t) && Contents(s) + [] == Contents(s);
  }

  /**
   Every run, whatever the caller does: the cursor ASSERTs hold, and what readers took followed by what
   is left equals what was there followed by what writers committed.
   */
  lemma {:induction false} RunIsFifo(s: Ring, es: seq<Event>)
    requires Inv(s)
    ensures FifoStep(s, Run(s, es))
  {
    if es != [] {
      var last := |es| - 1;
      RunIsFifo(s, es[..last]);
      if Run(s, es[..last]).Ok? {
        var Ok(t, written, read) := Run(s, es[..last]);
        StepIsFifo(t, es[last]);
        if Next(t, es[last]).Ok? {
          var Ok(t', a, b) := Next(t, es[last]);
          ChainFifo(Contents(s), written, read, Contents(t), a, b, Contents(t'));
        }
      }
    }
  }

  /** From construction on, nothing is lost, duplicated, reordered or made up. */
  lemma {:induction false} FifoRefinement(buf: seq<Byte>, es: seq<Event>)
    requires |buf| > 0
    ensures Run(Fresh(buf), es) != Broken
    ensures Run(Fresh(buf), es).Ok? ==>
              var Ok(s, written, read) := Run(Fresh(buf), es);
              Inv(s) && |s.buf| == |buf| && read + Contents(s) == written
  {
    RunIsFifo(Fresh(buf), es);
    assert Contents(Fresh(buf)) == [];
  }
}
