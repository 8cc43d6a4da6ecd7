/**
 Message contiguity: when every write commit is one message and every read commit ends on a message
 boundary, the head message can always be reserved in one piece.
 */
module RingMessages {
  import opened Basics
  import opened RingSpec
  import opened RingFifo
  import opened RingGuarantees

  /** The buffer together with the messages committed and not yet read. */
  datatype Mailbox = Mailbox(ring: Ring, msgs: seq<seq<Byte>>)

  /** `k` bytes from the front is the end of some message. */
  predicate Boundary(msgs: seq<seq<Byte>>, k: nat) {
    k == 0 || (msgs != [] && |msgs[0]| <= k && Boundary(msgs[1..], k - |msgs[0]|))
  }

  /** The messages left after the first `k` bytes. */
  function After(msgs: seq<seq<Byte>>, k: nat): seq<seq<Byte>>
    requires Boundary(msgs, k)
  {
    if k == 0 then msgs else After(msgs[1..], k - |msgs[0]|)
  }

  /** A step under the message discipline; None if the step is refused or breaks a message. */
  function MailNext(m: Mailbox, e: Event): Option<Mailbox> {
    match Next(m.ring, e)
    case Ok(t, written, read) =>
      if e.CommitWrite? then Some(Mailbox(t, m.msgs + [written]))
      else if !e.CommitRead? then Some(Mailbox(t, m.msgs))
      else if Boundary(m.msgs, |read|) then Some(Mailbox(t, After(m.msgs, |read|)))
      else None
    case _ => None
  }

  function MailRun(m: Mailbox, es: seq<Event>): Option<Mailbox> {
    if es == [] then Some(m)
    else
      match MailRun(m, es[..|es| - 1])
      case Some(t) => MailNext(t, es[|es| - 1])
      case None => None
  }

  /** The FIFO is exactly the pending messages, and the jump at the tail falls between two of them. */
  predicate NoStraddle(m: Mailbox) {
    && Inv(m.ring)
    && (forall i :: 0 <= i < |m.msgs| ==> m.msgs[i] != [])
    && Flatten(m.msgs) == Contents(m.ring)
    && (Wrapped(m.ring) ==> Boundary(m.msgs, m.ring.tail - m.ring.r))
  }

  lemma {:induction false} WholeIsBoundary(msgs: seq<seq<Byte>>)
    requires forall i :: 0 <= i < |msgs| ==> msgs[i] != []
    ensures Boundary(msgs, |Flatten(msgs)|)
  {
    if msgs != [] {
      WholeIsBoundary(msgs[1..]);
    }
  }

  lemma {:induction false} BoundaryGrows(msgs: seq<seq<Byte>>, msg: seq<Byte>, k: nat)
    requires Boundary(msgs, k)
    ensures Boundary(msgs + [msg], k)
  {
    if k != 0 {
      BoundaryGrows(msgs[1..], msg, k - |msgs[0]|);
      assert (msgs + [msg])[1..] == msgs[1..] + [msg];
    }
  }

  lemma {:induction false} AfterDrops(msgs: seq<seq<Byte>>, k: nat)
    requires Boundary(msgs, k)
    requires forall i :: 0 <= i < |msgs| ==> msgs[i] != []
    ensures k <= |Flatten(msgs)|
    ensures Flatten(After(msgs, k)) == Flatten(msgs)[k..]
    ensures forall i :: 0 <= i < |After(msgs, k)| ==> After(msgs, k)[i] != []
  {
    if k != 0 {
      AfterDrops(msgs[1..], k - |msgs[0]|);
    }
  }

  lemma {:induction false} BoundaryAfter(msgs: seq<seq<Byte>>, a: nat, b: nat)
    requires Boundary(msgs, a) && Boundary(msgs, b) && a <= b
    requires forall i :: 0 <= i < |msgs| ==> msgs[i] != []
    ensures Boundary(After(msgs, a), b - a)
  {
    if a != 0 {
      BoundaryAfter(msgs[1..], a - |msgs[0]|, b - |msgs[0]|);
    }
  }

  lemma StepKeepsMessages(m: Mailbox, e: Event)
    requires NoStraddle(m) && MailNext(m, e).Some?
    ensures NoStraddle(MailNext(m, e).value)
  {
    StepIsFifo(m.ring, e);
    match e
    case CommitWrite(n) => CommitWriteKeepsMessages(m, n);
    case CommitRead(n) => CommitReadKeepsMessages(m, n);
    case _ => OtherStepKeepsMessages(m, e);
  }

  lemma CommitWriteKeepsMessages(m: Mailbox, n: nat)
    requires NoStraddle(m) && MailNext(m, CommitWrite(n)).Some?
    ensures NoStraddle(MailNext(m, CommitWrite(n)).value)
  {
    var s := m.ring;
    var Ok(t, msg, _) := Next(s, CommitWrite(n));
    CommitWriteEffect(s, n);
    FlattenAppend(m.msgs, [msg]);
    FlattenOne(msg);
    var msgs := m.msgs + [msg];
    assert |msg| == CommitSize(n, s.writer.value) > 0;
    if Wrapped(s) {
      BoundaryGrows(m.msgs, msg, s.tail - s.r);
    } else {
      WholeIsBoundary(msgs);
      assert Wrapped(t) ==> t.tail - t.r == |Contents(t)|;
    }
  }

  lemma CommitReadKeepsMessages(m: Mailbox, n: nat)
    requires NoStraddle(m) && MailNext(m, CommitRead(n)).Some?
    ensures NoStraddle(MailNext(m, CommitRead(n)).value)
  {
    var s := m.ring;
    var Ok(t, _, read) := Next(s, CommitRead(n));
    StepIsFifo(s, CommitRead(n));
    assert Contents(s) + [] == Contents(s);
    assert Contents(t) == Contents(s)[|read|..];
    AfterDrops(m.msgs, |read|);
    if Wrapped(t) {
      BoundaryAfter(m.msgs, |read|, s.tail - s.r);
    }
  }

  /** A step that commits nothing wraps the FIFO only by a tail-skip, which puts all of it before the tail. */
  lemma SkipStartsAtBoundary(s: Ring, e: Event)
    requires Inv(s) && !e.CommitWrite? && !e.CommitRead? && Next(s, e).Ok?
    ensures var t := Next(s, e).ring;
            Wrapped(t) ==>
              if Wrapped(s) then t.r == s.r && t.tail == s.tail else t.r == s.r && t.tail - t.r == |Contents(s)|
  {
  }

  lemma OtherStepKeepsMessages(m: Mailbox, e: Event)
    requires NoStraddle(m) && MailNext(m, e).Some? && !e.CommitWrite? && !e.CommitRead?
    ensures NoStraddle(MailNext(m, e).value)
  {
    var s, t := m.ring, Next(m.ring, e).ring;
    StepIsFifo(s, e);
    assert [] + Contents(t) == Contents(t) && Contents(s) + [] == Contents(s);
    SkipStartsAtBoundary(s, e);
    if Wrapped(t) && !Wrapped(s) {
      WholeIsBoundary(m.msgs);
    }
  }

  /** No run under the discipline ever lets a message straddle the tail. */
  lemma {:induction false} MessagesNeverStraddle(buf: seq<Byte>, es: seq<Event>)
    requires |buf| > 0 && MailRun(Mailbox(Fresh(buf), []), es).Some?
    ensures NoStraddle(MailRun(Mailbox(Fresh(buf), []), es).value)
  {
    if es != [] {
      MessagesNeverStraddle(buf, es[..|es| - 1]);
      StepKeepsMessages(MailRun(Mailbox(Fresh(buf), []), es[..|es| - 1]).value, es[|es| - 1]);
    }
  }

  /** Any part of the head message, up to all of it, can be reserved in one piece and reads as stored. */
  lemma HeadMessageIsContiguous(m: Mailbox, k: nat)
    requires NoStraddle(m) && m.ring.reader.None? && m.msgs != [] && 0 < k <= |m.msgs[0]|
    ensures var o := Next(m.ring, CreateReader(k));
            && o.Ok? && o.ring.reader.Some?
            && o.ring.buf == m.ring.buf
            && var h := o.ring.reader.value;
               && h.size == k
               && h.start + k <= |m.ring.buf|
               && m.ring.buf[h.start..h.start + k] == m.msgs[0][..k]
  {
    var s := m.ring;
    assert |m.msgs[0]| <= HeadRun(s);
    assert Contents(s)[..k] == m.msgs[0][..k];
    ReaderAvailability(s, Some(k));
    assert GrantFor(s, Some(k)) == k;
  }

  lemma FirstIsBoundary(msgs: seq<seq<Byte>>)
    requires msgs != [] && msgs[0] != []
    ensures Boundary(msgs, |msgs[0]|) && After(msgs, |msgs[0]|) == msgs[1..]
  {
    assert Boundary(msgs[1..], 0) && After(msgs[1..], 0) == msgs[1..];
  }

  /** Reserving the head message and committing it takes exactly that message. */
  lemma TakeHead(m: Mailbox)
    requires NoStraddle(m) && m.ring.reader.None? && m.msgs != []
    ensures var n := |m.msgs[0]|;
            && MailNext(m, CreateReader(n)).Some?
            && var held := MailNext(m, CreateReader(n)).value;
               && MailNext(held, CommitRead(0)).Some?
               && MailNext(held, CommitRead(0)).value.msgs == m.msgs[1..]
               && Next(held.ring, CommitRead(0)).read == m.msgs[0]
  {
    var n := |m.msgs[0]|;
    HeadMessageIsContiguous(m, n);
    var held := MailNext(m, CreateReader(n)).value;
    StepKeepsMessages(m, CreateReader(n));
    CommitReadGoesThrough(held.ring, 0);
    FirstIsBoundary(m.msgs);
  }

  /** Peeking: the reservation is granted in full and giving it up leaves the same messages to be read. */
  lemma Peek(m: Mailbox, k: nat)
    requires NoStraddle(m) && m.ring.reader.None? && m.msgs != [] && 0 < k <= |m.msgs[0]|
    ensures MailNext(m, CreateReader(k)).Some?
    ensures var held := MailNext(m, CreateReader(k)).value;
            && MailNext(held, GiveUpReader).Some?
            && var back := MailNext(held, GiveUpReader).value;
               NoStraddle(back) && back.ring.reader.None? && back.msgs == m.msgs
  {
    HeadMessageIsContiguous(m, k);
    StepKeepsMessages(m, CreateReader(k));
    StepKeepsMessages(MailNext(m, CreateReader(k)).value, GiveUpReader);
  }

  lemma MailRunSnoc(m: Mailbox, es: seq<Event>, e: Event)
    ensures MailRun(m, es + [e]) == if MailRun(m, es).Some? then MailNext(MailRun(m, es).value, e) else None
  {
    assert (es + [e])[..|es|] == es;
  }

  /** Peek a header of `k` bytes, give up, reserve the whole message, commit: that message is gone, no more. */
  lemma PeekThenTake(m: Mailbox, k: nat)
    requires NoStraddle(m) && m.ring.reader.None? && m.msgs != [] && 0 < k <= |m.msgs[0]|
    ensures var o := MailRun(m, [CreateReader(k)] + [GiveUpReader] + [CreateReader(|m.msgs[0]|)] + [CommitRead(0)]);
            o.Some? && o.value.msgs == m.msgs[1..] && NoStraddle(o.value)
  {
    Peek(m, k);
    assert MailRun(m, []) == Some(m) && [] + [CreateReader(k)] == [CreateReader(k)];
    MailRunSnoc(m, [], CreateReader(k));
    var es := [CreateReader(k)];
    MailRunSnoc(m, es, GiveUpReader);
    es := es + [GiveUpReader];
    var back := MailRun(m, es).value;
    TakeHead(back);
    var n := |m.msgs[0]|;
    MailRunSnoc(m, es, CreateReader(n));
    es := es + [CreateReader(n)];
    MailRunSnoc(m, es, CommitRead(0));
    StepKeepsMessages(back, CreateReader(n));
    StepKeepsMessages(MailNext(back, CreateReader(n)).value, CommitRead(0));
  }
}
