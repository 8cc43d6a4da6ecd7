/** Longer scenarios of the ring buffer: draining it, and the corners its flags get wrong. */
module RingRuns {
  import opened Basics
  import opened RingSpec
  import opened RingFifo
  import opened RingGuarantees

  /** Runs compose: the later part starts where the earlier one stopped. */
  lemma {:induction false} RunAppend(s: Ring, a: seq<Event>, b: seq<Event>)
    requires Run(s, a).Ok?
    ensures Run(s, a + b) == match Run(Run(s, a).ring, b)
                             case Ok(t, written, read) => Ok(t, Run(s, a).written + written, Run(s, a).read + read)
                             case bad => bad
  {
    if b == [] {
      assert a + b == a;
    } else {
      var last := |b| - 1;
      RunAppend(s, a, b[..last]);
      assert (a + b)[..|a + b| - 1] == a + b[..last] && (a + b)[|a + b| - 1] == b[last];
      if Run(Run(s, a).ring, b[..last]).Ok? {
        var Ok(m, written, read) := Run(Run(s, a).ring, b[..last]);
        var o := Next(m, b[last]);
        if o.Ok? {
          Associative(Run(s, a).written, written, o.written);
          Associative(Run(s, a).read, read, o.read);
        }
      }
    }
  }

  lemma RunOne(s: Ring, e: Event)
    ensures Run(s, [e]) == Next(s, e)
  {
    assert [e][..0] == [] && Run(s, [e][..0]) == Quiet(s);
    if Next(s, e).Ok? {
      assert [] + Next(s, e).written == Next(s, e).written;
      assert [] + Next(s, e).read == Next(s, e).read;
    }
  }

  lemma RunTwo(s: Ring, e: Event, f: Event)
    requires Next(s, e).Ok? && Next(Next(s, e).ring, f).Ok?
    ensures var m := Next(s, e);
            var t := Next(m.ring, f);
            Run(s, [e, f]) == Ok(t.ring, m.written + t.written, m.read + t.read)
  {
    RunOne(s, e);
    RunOne(Next(s, e).ring, f);
    RunAppend(s, [e], [f]);
    assert [e] + [f] == [e, f];
  }

  // ----- Draining -----

  const TAKE_ALL: seq<Event> := [CreateAllReader, CommitRead(0)]

  /** Committing a reader over the whole head run leaves the second part alone, or nothing at all. */
  lemma CommitWholeHead(m: Ring)
    requires Inv(m) && m.writer.None? && m.r < m.tail
    requires m.reader == Some(Span(m.r, HeadRun(m)))
    ensures var t := if Wrapped(m) && m.w > 0 then m.(r := 0, tail := |m.buf|, full := false, reader := None)
                     else Fresh(m.buf);
            && Next(m, CommitRead(0)) == Ok(t, [], Contents(m)[..HeadRun(m)])
            && HeadRun(m) <= |Contents(m)|
            && Inv(t)
            && Contents(t) == Contents(m)[HeadRun(m)..]
  {
    HeadSlice(m, HeadRun(m));
  }

  lemma ReserveWholeHead(s: Ring)
    requires Inv(s) && Idle(s) && Contents(s) != []
    ensures var m := Normalise(s).(reader := Some(Span(Normalise(s).r, HeadRun(s))));
            && Next(s, CreateAllReader) == Ok(m, [], [])
            && Inv(m)
            && m.r < m.tail
            && Contents(m) == Contents(s)
            && HeadRun(m) == HeadRun(s)
  {
    NormaliseKeeps(s);
    HeadRunAfterJump(s);
    ReserveReadKeeps(Normalise(s), None);
    ReserveReadGrants(Normalise(s), None);
  }

  /** One round takes the head run; if that was everything, the buffer is back in its constructed state. */
  lemma DrainRound(s: Ring)
    requires Inv(s) && Idle(s) && Contents(s) != []
    ensures HeadRun(s) <= |Contents(s)| && Run(s, TAKE_ALL).Ok?
    ensures var t := Run(s, TAKE_ALL).ring;
            && Run(s, TAKE_ALL) == Ok(t, [], Contents(s)[..HeadRun(s)])
            && Inv(t) && Idle(t)
            && t.buf == s.buf
            && Contents(t) == Contents(s)[HeadRun(s)..]
            && HeadRun(t) == |Contents(t)|
            && (Contents(t) == [] ==> t == Fresh(s.buf))
  {
    ReserveWholeHead(s);
    var m := Next(s, CreateAllReader).ring;
    CommitWholeHead(m);
    RunTwo(s, CreateAllReader, CommitRead(0));
    var taken := Contents(s)[..HeadRun(s)];
    assert [] + taken == taken;
  }

  /**
   Two rounds of "reserve everything, commit" always suffice: the whole FIFO comes out in order, the
   buffer is as constructed, and the full capacity can be reserved again.
   */
  lemma TwoRoundDrain(s: Ring)
    requires Inv(s) && Idle(s) && Contents(s) != []
    ensures var once := HeadRun(s) == |Contents(s)|;
            Run(s, if once then TAKE_ALL else TAKE_ALL + TAKE_ALL) == Ok(Fresh(s.buf), [], Contents(s))
    ensures Next(Fresh(s.buf), CreateWriter(|s.buf|)).ring.writer == Some(Span(0, |s.buf|))
  {
    DrainRound(s);
    var Ok(t, _, read) := Run(s, TAKE_ALL);
    assert read + Contents(t) == Contents(s);
    if Contents(t) == [] {
      assert HeadRun(s) == |Contents(s)|;
      assert read == Contents(s);
    } else {
      DrainRound(t);
      RunAppend(s, TAKE_ALL, TAKE_ALL);
      var Ok(u, _, rest) := Run(t, TAKE_ALL);
      assert rest == Contents(t);
      assert read + rest == Contents(s);
    }
  }

  // ----- Corners -----

  lemma RunSnoc(s: Ring, es: seq<Event>, e: Event)
    requires Run(s, es).Ok? && Next(Run(s, es).ring, e).Ok?
    ensures Run(s, es + [e]).Ok? && Run(s, es + [e]).ring == Next(Run(s, es).ring, e).ring
  {
    assert (es + [e])[..|es|] == es;
  }

  /**
   Write p bytes, let a reader drain them while a second writer is out, then give that writer up: the
   read commit does not reset the cursors, so they meet in the middle.
   */
  function MeetInTheMiddle(p: nat): seq<Event> {
    [CreateWriter(p), CommitWrite(0)] + [CreateAllReader] + [CreateWriter(1)] + [CommitRead(0)] + [GiveUpWriter]
  }

  /** The buffer is then empty, but (by EmptyOffersWholeCapacity) its whole capacity is not on offer. */
  lemma EmptyInTheMiddle(buf: seq<Byte>, p: nat)
    requires 0 < p < |buf|
    ensures Run(Fresh(buf), MeetInTheMiddle(p)).Ok?
    ensures Run(Fresh(buf), MeetInTheMiddle(p)).ring == Ring(buf, p, p, |buf|, false, None, None)
  {
    var s := Fresh(buf);
    RunTwo(s, CreateWriter(p), CommitWrite(0));
    assert Run(s, [CreateWriter(p), CommitWrite(0)]).ring == Ring(buf, 0, p, |buf|, false, None, None);
    var es := [CreateWriter(p), CommitWrite(0)];
    RunSnoc(s, es, CreateAllReader);
    es := es + [CreateAllReader];
    RunSnoc(s, es, CreateWriter(1));
    es := es + [CreateWriter(1)];
    RunSnoc(s, es, CommitRead(0));
    es := es + [CommitRead(0)];
    RunSnoc(s, es, GiveUpWriter);
  }

  /** A tail-skip from there: nothing is stored, yet the emptiness test answers no. */
  lemma IsEmptyMisreports(buf: seq<Byte>, p: nat)
    requires 0 < p < |buf| < 2 * p
    ensures var es := MeetInTheMiddle(p) + [CreateWriter(p)];
            && Run(Fresh(buf), es).Ok?
            && var s := Run(Fresh(buf), es).ring;
               s == Ring(buf, p, 0, p, false, Some(Span(0, p)), None) && Inv(s) && Contents(s) == [] && !IsEmpty(s)
  {
    EmptyInTheMiddle(buf, p);
    RunSnoc(Fresh(buf), MeetInTheMiddle(p), CreateWriter(p));
  }

  /** Giving that reservation up leaves a drained, idle buffer that its destructor refuses. */
  lemma DestructorRefusesDrained(buf: seq<Byte>, p: nat)
    requires 0 < p < |buf| < 2 * p
    ensures var es := MeetInTheMiddle(p) + [CreateWriter(p)] + [GiveUpWriter];
            && Run(Fresh(buf), es).Ok?
            && var s := Run(Fresh(buf), es).ring;
               Inv(s) && Idle(s) && Contents(s) == [] && !IsEmpty(s) && !DestructorAccepts(s)
  {
    IsEmptyMisreports(buf, p);
    RunSnoc(Fresh(buf), MeetInTheMiddle(p) + [CreateWriter(p)], GiveUpWriter);
  }

  /**
   Committing that reservation in full raises m_isFull with free slots left, so every further write is
   refused; peeking (reserve, give up) moves the cursors but leaves the flag up.
   */
  lemma FullFlagMisreports(buf: seq<Byte>, p: nat)
    requires 0 < p < |buf| < 2 * p
    ensures var es := MeetInTheMiddle(p) + [CreateWriter(p)] + [CommitWrite(0)];
            && Run(Fresh(buf), es).Ok?
            && var s := Run(Fresh(buf), es).ring;
               && s == Ring(buf, p, p, p, true, None, None)
               && Inv(s) && |Contents(s)| < |buf|
               && Next(s, CreateWriter(1)).ring.writer.None?
    ensures var es := MeetInTheMiddle(p) + [CreateWriter(p)] + [CommitWrite(0)] + [CreateReader(1)] + [GiveUpReader];
            && Run(Fresh(buf), es).Ok?
            && Run(Fresh(buf), es).ring == Ring(buf, 0, p, |buf|, true, None, None)
  {
    IsEmptyMisreports(buf, p);
    var s := Fresh(buf);
    var es := MeetInTheMiddle(p) + [CreateWriter(p)];
    RunSnoc(s, es, CommitWrite(0));
    es := es + [CommitWrite(0)];
    RunSnoc(s, es, CreateReader(1));
    es := es + [CreateReader(1)];
    RunSnoc(s, es, GiveUpReader);
  }
}
