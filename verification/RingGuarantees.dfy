/** What callers of the ring buffer may rely on, and where its flags mislead. */
module RingGuarantees {
  import opened Basics
  import opened RingSpec
  import opened RingFifo

  // ----- Zero-copy isolation -----

  /** Array index `i` holds a committed byte. */
  predicate Holds(s: Ring, i: nat) {
    if Wrapped(s) then s.r <= i < s.tail || i < s.w else s.r <= i < s.w
  }

  predicate Covers(h: Span, i: nat) {
    h.start <= i < h.start + h.size
  }

  /** `Holds` is the FIFO's whole footprint: other indices may change without the FIFO noticing. */
  lemma ContentsFootprint(s: Ring, buf: seq<Byte>)
    requires Inv(s) && |buf| == |s.buf|
    requires forall i :: 0 <= i < |buf| && Holds(s, i) ==> buf[i] == s.buf[i]
    ensures Contents(s.(buf := buf)) == Contents(s)
  {
    if Wrapped(s) {
      assert forall i :: s.r <= i < s.tail ==> Holds(s, i);
      assert forall i :: 0 <= i < s.w ==> Holds(s, i);
      assert buf[s.r..s.tail] == s.buf[s.r..s.tail];
      assert buf[..s.w] == s.buf[..s.w];
    } else {
      assert forall i :: s.r <= i < s.w ==> Holds(s, i);
      assert buf[s.r..s.w] == s.buf[s.r..s.w];
    }
  }

  /** In every reachable state the writer owns free space only and the reader sees the FIFO's head. */
  lemma {:induction false} Isolation(buf: seq<Byte>, es: seq<Event>)
    requires |buf| > 0 && Run(Fresh(buf), es).Ok?
    ensures var s := Run(Fresh(buf), es).ring;
            && Inv(s)
            && (s.writer.Some? ==> forall i: nat :: Covers(s.writer.value, i) ==> i < |s.buf| && !Holds(s, i))
            && (s.reader.Some? ==>
                  && (forall i: nat :: Covers(s.reader.value, i) ==> i < |s.buf| && Holds(s, i))
                  && var h := s.reader.value;
                     h.start + h.size <= |s.buf| && s.buf[h.start..h.start + h.size] <= Contents(s))
            && (s.writer.Some? && s.reader.Some? ==>
                  forall i: nat :: !(Covers(s.writer.value, i) && Covers(s.reader.value, i)))
  {
    FifoRefinement(buf, es);
    var s := Run(Fresh(buf), es).ring;
    if s.reader.Some? {
      ReaderSeesHead(s);
    }
  }

  predicate WriterSide(e: Event) {
    e.CreateWriter? || e.CreateAllWriter? || e.Fill? || e.CommitWrite? || e.GiveUpWriter?
  }

  /** The same reader is out in `t` as in `s`, over the same bytes. */
  predicate SameView(s: Ring, t: Ring)
    requires Inv(s) && s.reader.Some?
  {
    var h := s.reader.value;
    && Inv(t)
    && t.reader == s.reader
    && |t.buf| == |s.buf|
    && t.buf[h.start..h.start + h.size] == s.buf[h.start..h.start + h.size]
  }

  lemma ReaderSeesHead(s: Ring)
    requires Inv(s) && s.reader.Some?
    ensures var h := s.reader.value;
            h.start + h.size <= |s.buf| && s.buf[h.start..h.start + h.size] <= Contents(s)
  {
    ContentsSplit(s, s.reader.value.size);
  }

  lemma WriterStepKeepsView(s: Ring, e: Event)
    requires Inv(s) && s.reader.Some? && WriterSide(e) && Next(s, e).Ok?
    ensures SameView(s, Next(s, e).ring)
  {
    StepIsFifo(s, e);
    if e.Fill? {
      var h := s.reader.value;
      var t := Next(s, e).ring;
      assert forall i :: h.start <= i < h.start + h.size ==> t.buf[i] == s.buf[i];
    }
  }

  lemma {:induction false} WriterRunKeepsView(s: Ring, es: seq<Event>)
    requires Inv(s) && s.reader.Some? && Run(s, es).Ok?
    requires forall e :: e in es ==> WriterSide(e)
    ensures SameView(s, Run(s, es).ring)
  {
    if es != [] {
      var last := |es| - 1;
      WriterRunKeepsView(s, es[..last]);
      WriterStepKeepsView(Run(s, es[..last]).ring, es[last]);
    }
  }

  /**
   While a reader is out, no run of writer steps changes the bytes under it, and they stay the FIFO's head.
   */
  lemma {:induction false} ReaderStable(s: Ring, es: seq<Event>)
    requires Inv(s) && s.reader.Some? && Run(s, es).Ok?
    requires forall e :: e in es ==> WriterSide(e)
    ensures SameView(s, Run(s, es).ring)
    ensures var h := s.reader.value;
            s.buf[h.start..h.start + h.size] <= Contents(Run(s, es).ring)
  {
    WriterRunKeepsView(s, es);
    ReaderSeesHead(Run(s, es).ring);
  }

  // ----- Reader availability -----

  /** The bytes a reader can reach without crossing the tail. */
  function HeadRun(s: Ring): nat
    requires Inv(s)
  {
    if s.r < s.w then s.w - s.r
    else if !Wrapped(s) then 0
    else if s.r < s.tail then s.tail - s.r
    else s.w
  }

  /** Within the head run, array and FIFO agree. */
  lemma HeadSlice(s: Ring, n: nat)
    requires Inv(s) && s.r < s.tail && n <= HeadRun(s)
    ensures n <= |Contents(s)| && s.r + n <= |s.buf|
    ensures s.buf[s.r..s.r + n] == Contents(s)[..n]
  {
    var end := if Wrapped(s) then s.tail else s.w;
    assert s.r + n <= end <= |s.buf|;
    assert s.buf[s.r..s.r + n] == s.buf[s.r..end][..n];
  }

  lemma HeadRunIsZeroWhenEmpty(s: Ring)
    requires Inv(s) && s.r < s.tail
    ensures HeadRun(s) == 0 <==> Contents(s) == []
    ensures HeadRun(s) == 0 <==> IsEmpty(s)
  {
  }

  /** The size a reader gets when asking for `limit`, or for everything. */
  function GrantFor(s: Ring, limit: Option<nat>): nat
    requires Inv(s)
  {
    if limit.Some? then Min(limit.value, HeadRun(s)) else HeadRun(s)
  }

  lemma ReserveReadGrants(s: Ring, limit: Option<nat>)
    requires Inv(s) && s.reader.None? && s.r < s.tail && (limit.Some? ==> limit.value > 0)
    ensures ReserveRead(s, limit) == if Contents(s) == [] then s else s.(reader := Some(Span(s.r, GrantFor(s, limit))))
    ensures Contents(s) != [] ==> 0 < GrantFor(s, limit)
  {
    HeadRunIsZeroWhenEmpty(s);
  }

  lemma HeadRunAfterJump(s: Ring)
    requires Inv(s) && s.reader.None?
    ensures Inv(Normalise(s)) && HeadRun(Normalise(s)) == HeadRun(s)
  {
  }

  /** What a reader is offered lies in the array where the FIFO's head does. */
  lemma OfferIsHead(s: Ring, n: nat)
    requires Inv(s) && s.reader.None? && n <= HeadRun(s)
    ensures n <= |Contents(s)| && Normalise(s).r + n <= |s.buf|
    ensures s.buf[Normalise(s).r..Normalise(s).r + n] == Contents(s)[..n]
  {
    NormaliseKeeps(s);
    HeadRunAfterJump(s);
    HeadSlice(Normalise(s), n);
  }

  /** A reader is refused exactly when the FIFO is empty; otherwise it gets the FIFO's head, cut at the tail. */
  lemma {:induction false} ReaderAvailability(s: Ring, limit: Option<nat>)
    requires Inv(s) && s.reader.None? && (limit.Some? ==> limit.value > 0)
    ensures var t := Normalise(s);
            Next(s, if limit.Some? then CreateReader(limit.value) else CreateAllReader)
            == Quiet(if Contents(s) == [] then t else t.(reader := Some(Span(t.r, GrantFor(s, limit)))))
    ensures Contents(s) != [] ==> 0 < GrantFor(s, limit) <= |Contents(s)|
    ensures Normalise(s).r + GrantFor(s, limit) <= |s.buf|
    ensures GrantFor(s, limit) <= |Contents(s)|
    ensures s.buf[Normalise(s).r..Normalise(s).r + GrantFor(s, limit)] == Contents(s)[..GrantFor(s, limit)]
  {
    NormaliseKeeps(s);
    HeadRunAfterJump(s);
    ReserveReadGrants(Normalise(s), limit);
    OfferIsHead(s, GrantFor(s, limit));
  }

  /** The private emptiness test agrees with the FIFO except right after a tail-skip over an empty buffer. */
  lemma IsEmptyExact(s: Ring)
    requires Inv(s)
    ensures (IsEmpty(s) <==> Contents(s) == []) <==> !(s.r == s.tail && s.w == 0)
  {
  }

  /** The destructor's three ASSERTs hold exactly when nothing is reserved or stored, outside that same state. */
  lemma DestructorExact(s: Ring)
    requires Inv(s)
    ensures DestructorAccepts(s) <==> Idle(s) && Contents(s) == [] && !(s.r == s.tail && s.w == 0)
  {
    IsEmptyExact(s);
  }

  // ----- Writer availability -----

  /** `n` slots from index `p` on lie below the tail and hold no data. */
  ghost predicate FreeRun(s: Ring, p: nat, n: nat) {
    p + n <= s.tail && forall i :: p <= i < p + n ==> !Holds(s, i)
  }

  /** Both cursors away from the start of an empty buffer: the free slots on either side are not joined. */
  predicate MetInTheMiddle(s: Ring) {
    s.r == s.w && 0 < s.r && !s.full
  }

  /** The request would need slots from both sides of cursors that met in the middle. */
  predicate SpansTheMiddle(s: Ring, n: nat) {
    MetInTheMiddle(s) && s.r < n <= |s.buf| && |s.buf| - s.w < n
  }

  /** The flag is up from before a jump, and the request fits behind the data. */
  predicate BarredByStaleFlag(s: Ring, n: nat) {
    s.full && s.r < s.w && n <= |s.buf| - s.w
  }

  /** The read cursor stands at the tail: the slots that the next reader's jump frees are not offered yet. */
  predicate AwaitsJump(s: Ring, n: nat) {
    s.r == s.tail && n <= |s.buf| - s.w && (s.full || s.r - s.w < n)
  }

  predicate Barred(s: Ring, n: nat) {
    SpansTheMiddle(s, n) || BarredByStaleFlag(s, n) || AwaitsJump(s, n)
  }

  lemma FreeRunFits(s: Ring, p: nat, n: nat)
    requires Inv(s) && n > 0 && FreeRun(Normalise(s), p, n) && !Barred(s, n)
    ensures !s.full && (if s.r <= s.w then n <= |s.buf| - s.w || n <= s.r else n <= s.r - s.w)
  {
    var t := Normalise(s);
    assert !Holds(t, p);
    assert !Holds(t, p + n - 1);
    if p <= t.r < p + n {
      assert !Holds(t, t.r);
    }
    if p <= t.w < p + n {
      assert !Holds(t, t.w);
    }
  }

  lemma GrantIsFreeRun(s: Ring, n: nat)
    requires Inv(s) && s.writer.None? && n > 0 && Next(s, CreateWriter(n)).ring.writer.Some?
    ensures var h := Next(s, CreateWriter(n)).ring.writer.value;
            h.size == n && FreeRun(s, h.start, n) && FreeRun(Normalise(s), h.start, n)
  {
  }

  lemma RefusedRun(s: Ring, n: nat)
    requires Inv(s) && s.writer.None? && n > 0 && Barred(s, n)
    ensures Next(s, CreateWriter(n)).ring.writer.None?
    ensures FreeRun(Normalise(s), if SpansTheMiddle(s, n) then 0 else s.w, n)
  {
  }

  /**
   A writer's grant is a row of n free slots.  It is given exactly when there is such a row, counting those
   a pending jump sets free, if and only if the request neither spans cursors that met in the middle, nor is
   barred by a stale flag, nor waits for the jump.
   */
  lemma {:induction false} WriterAvailability(s: Ring, n: nat)
    requires Inv(s) && s.writer.None? && n > 0
    ensures var o := Next(s, CreateWriter(n));
            && o.Ok?
            && (o.ring.writer.Some? ==> o.ring.writer.value.size == n && FreeRun(s, o.ring.writer.value.start, n))
            && ((o.ring.writer.Some? <==> exists p :: FreeRun(Normalise(s), p, n)) <==> !Barred(s, n))
  {
    var t := Next(s, CreateWriter(n)).ring;
    if t.writer.Some? {
      GrantIsFreeRun(s, n);
    }
    if Barred(s, n) {
      RefusedRun(s, n);
    } else {
      forall p | FreeRun(Normalise(s), p, n)
        ensures t.writer.Some?
      {
        FreeRunFits(s, p, n);
      }
    }
  }

  /** The open-ended writer is refused only by the flag, and runs up to the array's end or the read cursor. */
  lemma AllWriterAvailability(s: Ring)
    requires Inv(s) && s.writer.None?
    ensures var o := Next(s, CreateAllWriter);
            && o.Ok?
            && o.ring.(writer := None) == s
            && (o.ring.writer.None? <==> s.full)
            && (o.ring.writer.Some? ==>
                  var h := o.ring.writer.value;
                  && h.start == s.w
                  && FreeRun(s, h.start, h.size)
                  && (h.start + h.size == |s.buf| || h.start + h.size == s.r))
  {
  }

  // ----- Space -----

  /** Every array slot is data, free, or skipped at the tail. */
  lemma SpaceAccounting(s: Ring)
    requires Inv(s)
    ensures !Wrapped(s) ==> |Contents(s)| + s.r + (|s.buf| - s.w) == |s.buf|
    ensures Wrapped(s) ==> |Contents(s)| + (s.r - s.w) + (|s.buf| - s.tail) == |s.buf|
  {
  }

  /** Skipped space is always less than some request the run has made. */
  lemma {:induction false} WasteBelowARequest(buf: seq<Byte>, es: seq<Event>)
    requires |buf| > 0 && Run(Fresh(buf), es).Ok?
    ensures var s := Run(Fresh(buf), es).ring;
            && s.tail <= |buf|
            && (s.tail < |buf| ==> exists i :: 0 <= i < |es| && es[i].CreateWriter? && |buf| - s.tail < es[i].n)
  {
    FifoRefinement(buf, es);
    if es != [] {
      var last := |es| - 1;
      WasteBelowARequest(buf, es[..last]);
      FifoRefinement(buf, es[..last]);
      var m := Run(Fresh(buf), es[..last]).ring;
      var s := Run(Fresh(buf), es).ring;
      TailOnlyDropsToSkip(m, es[last]);
      if s.tail < |buf| && s.tail == m.tail {
        var i :| 0 <= i < last && es[..last][i].CreateWriter? && |buf| - m.tail < es[..last][i].n;
        assert es[i] == es[..last][i];
      }
    }
  }

  lemma TailOnlyDropsToSkip(s: Ring, e: Event)
    requires Inv(s) && Next(s, e).Ok?
    ensures var t := Next(s, e).ring;
            t.tail == s.tail || t.tail == |s.buf| || (e.CreateWriter? && |s.buf| - t.tail < e.n)
  {
  }

  /**
   While unwrapped and not full, half the free space (rounded up) can always be reserved.  Half is all one
   can promise: with the free space split evenly around the data, one byte more is refused.
   */
  lemma HalfOfFreeSpaceIsGranted(s: Ring, n: nat)
    requires Inv(s) && s.writer.None? && !Wrapped(s) && !s.full && n > 0
    ensures n <= (|s.buf| - |Contents(s)| + 1) / 2 ==> Next(s, CreateWriter(n)).ring.writer.Some?
    ensures s.r == |s.buf| - s.w && n == (|s.buf| - |Contents(s)|) / 2 + 1 ==>
              Next(s, CreateWriter(n)).ring.writer.None?
  {
  }

  /** An empty, idle buffer offers its whole capacity exactly when its read cursor is home. */
  lemma EmptyOffersWholeCapacity(s: Ring)
    requires Inv(s) && s.writer.None? && s.reader.None? && Contents(s) == []
    ensures Next(s, CreateWriter(|s.buf|)).ring.writer.Some? <==> s.r == 0
  {
  }

  /**
   `m_isFull` raised tells the truth (the data reaches all the way round to the tail) exactly when r == w < tail;
   lowered it always does, since a slot below the tail is free.
   */
  lemma FullFlagExact(s: Ring)
    requires Inv(s)
    ensures Inv(Normalise(s))
    ensures s.full ==> (|Contents(s)| == Normalise(s).tail <==> s.r == s.w && s.r < s.tail)
    ensures !s.full ==> exists i :: 0 <= i < s.tail && !Holds(s, i)
  {
    if !s.full {
      assert s.w < s.tail && !Holds(s, s.w);
    }
  }

  // ----- Clamp stability -----

  predicate Clamped(s: Ring, r: nat, tail: nat) {
    Inv(s) && Wrapped(s) && s.r == r && s.tail == tail
  }

  lemma ClampStep(s: Ring, e: Event)
    requires Inv(s) && Wrapped(s) && s.r < s.tail && !e.CommitRead? && Next(s, e).Ok?
    ensures Clamped(Next(s, e).ring, s.r, s.tail)
  {
    StepIsFifo(s, e);
  }

  lemma {:induction false} ClampHolds(s: Ring, es: seq<Event>)
    requires Inv(s) && Wrapped(s) && s.r < s.tail && Run(s, es).Ok?
    requires forall e :: e in es ==> !e.CommitRead?
    ensures Clamped(Run(s, es).ring, s.r, s.tail)
  {
    if es != [] {
      var last := |es| - 1;
      ClampHolds(s, es[..last]);
      ClampStep(Run(s, es[..last]).ring, es[last]);
    }
  }

  lemma ClampedGrant(s: Ring, n: nat)
    requires Inv(s) && Wrapped(s) && s.r < s.tail && s.reader.None? && n > 0
    ensures Next(s, CreateReader(n)) == Quiet(s.(reader := Some(Span(s.r, Min(n, s.tail - s.r)))))
  {
  }

  /**
   A wrapped FIFO with data before the tail keeps its head run until a read commits: a reader asking for
   more than that stays cut short, however much is written meanwhile.
   */
  lemma {:induction false} ClampStable(s: Ring, es: seq<Event>, n: nat)
    requires Inv(s) && Wrapped(s) && s.r < s.tail && Run(s, es).Ok?
    requires forall e :: e in es ==> !e.CommitRead?
    ensures var t := Run(s, es).ring;
            && Clamped(t, s.r, s.tail)
            && (t.reader.None? && n > 0 ==>
                  Next(t, CreateReader(n)) == Quiet(t.(reader := Some(Span(s.r, Min(n, s.tail - s.r))))))
  {
    ClampHolds(s, es);
    var t := Run(s, es).ring;
    if t.reader.None? && n > 0 {
      ClampedGrant(t, n);
    }
  }
}
