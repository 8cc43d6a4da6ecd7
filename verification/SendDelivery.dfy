/**
 What becomes of the accepted buffers and bytes: in which order buffers are delivered and what the peer sees,
 for every network, with the exact condition on its answers.
 */
module SendDelivery {
  import opened Basics
  import opened SendProtocol
  import opened SendProofs

  // ----- The network's answers -----

  predicate Failure(e: Event) {
    e.Finish? && !e.ok
  }

  predicate Success(e: Event) {
    e.Finish? && e.ok
  }

  predicate AnyFailure(es: seq<Event>) {
    exists i :: 0 <= i < |es| && Failure(es[i])
  }

  /** Some write succeeds after another one has failed. */
  predicate LateSuccess(es: seq<Event>) {
    exists i, j :: 0 <= i < j < |es| && Failure(es[i]) && Success(es[j])
  }

  lemma AnswersSnoc(es: seq<Event>)
    requires es != []
    ensures var init, e := es[..|es| - 1], es[|es| - 1];
            && (AnyFailure(es) <==> AnyFailure(init) || Failure(e))
            && (LateSuccess(es) <==> LateSuccess(init) || (AnyFailure(init) && Success(e)))
  {
    var last := |es| - 1;
    assert forall i :: 0 <= i < last ==> es[..last][i] == es[i];
  }

  // ----- The order of delivery -----

  /** The log and the answers so far, as seen by the one task that can hold the token. */
  predicate DeliveryPhase(w: World, t: Task, late: bool) {
    && (Carries(t) ==> w.session.sending != [])
    && (w.broken <==> !AllDelivered(w.settled) || t == Completing(false))
    && (late <==> !DeliveredFirst(w.settled) || (t == Completing(true) && !AllDelivered(w.settled)))
  }

  lemma SettleEffect(log: seq<Settlement>, bs: seq<Buffer>, ok: bool)
    ensures var next := log + Settle(bs, ok);
            && (AllDelivered(next) <==> AllDelivered(log) && (bs == [] || ok))
            && (DeliveredFirst(next) <==> DeliveredFirst(log) && (bs == [] || !ok || AllDelivered(log)))
  {
    var next := log + Settle(bs, ok);
    assert forall i :: 0 <= i < |log| ==> next[i] == log[i];
    if bs != [] {
      assert next[|log|] == Settlement(bs[0], ok);
    }
  }

  lemma GoKeepsDelivery(w: World, k: nat, i: nat, late: bool)
    requires InvAt(w, k) && DeliveryPhase(w, At(w.tasks, k), late) && Next(w, Go(i)).Some?
    ensures DeliveryPhase(Next(w, Go(i)).value, At(Next(w, Go(i)).value.tasks, k), late)
  {
    var s := w.session;
    match w.tasks[i]
    case Completing(ok) => SettleEffect(w.settled, s.sending, ok);
    case Cleared(ok) => SettleEffect(w.settled, s.queue, false);
    case _ =>
  }

  lemma StepKeepsDelivery(w: World, k: nat, e: Event, late: bool)
    requires InvAt(w, k) && DeliveryPhase(w, At(w.tasks, k), late) && Next(w, e).Some?
    ensures var v := Next(w, e).value;
            && DeliveryPhase(v, At(v.tasks, Holder(w, k, e)), late || (w.broken && Success(e)))
            && (v.broken <==> w.broken || Failure(e))
  {
    match e
    case Send(b) =>
    case Go(i) => GoKeepsDelivery(w, k, i, late);
    case Finish(i, ok, sent) =>
  }

  lemma {:induction false} RunKeepsDelivery(es: seq<Event>) returns (k: nat)
    requires Run(Start(), es).Some?
    ensures var w := Run(Start(), es).value;
            InvAt(w, k) && DeliveryPhase(w, At(w.tasks, k), LateSuccess(es)) && (w.broken <==> AnyFailure(es))
  {
    k := 0;
    if es != [] {
      var last := |es| - 1;
      k := RunKeepsDelivery(es[..last]);
      var m := Run(Start(), es[..last]).value;
      AnswersSnoc(es);
      StepKeepsInv(m, k, es[last]);
      StepKeepsDelivery(m, k, es[last], LateSuccess(es[..last]));
      k := Holder(m, k, es[last]);
    }
  }

  lemma {:induction false} PicksInOrder(log: seq<Settlement>)
    requires DeliveredFirst(log)
    ensures Buffers(log) == Pick(log, true) + Pick(log, false)
  {
    if log != [] {
      PicksInOrder(log[1..]);
      assert Buffers(log) == [log[0].b] + Buffers(log[1..]);
      if !log[0].ok {
        NothingPicked(log);
      }
    }
  }

  lemma {:induction false} NothingPicked(log: seq<Settlement>)
    requires forall i :: 0 <= i < |log| ==> !log[i].ok
    ensures Pick(log, true) == []
  {
    if log != [] {
      NothingPicked(log[1..]);
    }
  }

  /**
   Whatever else the network does: as long as no write succeeds after one has failed, the delivered buffers
   are the first ones accepted, and the dropped ones come next.  Where a run stops, nothing is delivered after
   something was dropped exactly under that condition.
   */
  lemma DeliveryOrderExactly(es: seq<Event>)
    requires Run(Start(), es).Some?
    ensures var w := Run(Start(), es).value;
            && (!LateSuccess(es) ==>
                  w.accepted == Pick(w.settled, true) + Pick(w.settled, false) + w.session.sending + w.session.queue)
            && (Quiet(w) ==> (DeliveredFirst(w.settled) <==> !LateSuccess(es)))
  {
    var k := RunKeepsDelivery(es);
    var w := Run(Start(), es).value;
    if !LateSuccess(es) {
      PicksInOrder(w.settled);
    }
    assert Quiet(w) ==> At(w.tasks, k) == Done;
  }

  // ----- The bytes on the wire -----

  /** Where the next batch starts in the accepted byte stream: after all bytes settled so far. */
  function SettledSize(w: World): nat {
    |Flatten(Buffers(w.settled))|
  }

  function Positions(start: nat, n: nat): seq<nat> {
    seq(n, i requires 0 <= i < n => start + i)
  }

  /** For every byte on the wire, its position among the accepted bytes. */
  function Origins(es: seq<Event>): seq<nat> {
    if es == [] then []
    else
      var init, e := es[..|es| - 1], es[|es| - 1];
      var m := Run(Start(), init);
      Origins(init) + if e.Finish? && m.Some? then Positions(SettledSize(m.value), e.sent) else []
  }

  /** The bytes before `Frontier` may be on the wire. */
  function Frontier(w: World, t: Task): nat {
    SettledSize(w) + if t.Completing? then |Flatten(w.session.sending)| else 0
  }

  /** `ps` picks the wire out of the accepted bytes, in their order. */
  predicate Embeds(w: World, ps: seq<nat>) {
    var stream := Flatten(w.accepted);
    && |ps| == |w.wire|
    && (forall i :: 0 <= i < |ps| ==> ps[i] < |stream| && w.wire[i] == stream[ps[i]])
    && (forall i, j :: 0 <= i < j < |ps| ==> ps[i] < ps[j])
  }

  predicate WirePhase(w: World, t: Task, ps: seq<nat>) {
    Embeds(w, ps) && forall i :: 0 <= i < |ps| ==> ps[i] < Frontier(w, t)
  }

  /** Steps that send nothing only lengthen the accepted stream and move the frontier on. */
  lemma QuietKeepsWire(w: World, k: nat, e: Event, ps: seq<nat>)
    requires InvAt(w, k) && WirePhase(w, At(w.tasks, k), ps) && Next(w, e).Some? && !e.Finish?
    ensures var v := Next(w, e).value; WirePhase(v, At(v.tasks, Holder(w, k, e)), ps)
  {
    FrontierMovesOn(w, k, e);
    if e.Send? {
      FlattenAppend(w.accepted, [e.b]);
    }
    EmbedsFrame(w, Next(w, e).value, ps);
  }

  lemma EmbedsFrame(w: World, v: World, ps: seq<nat>)
    requires Embeds(w, ps) && v.wire == w.wire && Flatten(w.accepted) <= Flatten(v.accepted)
    ensures Embeds(v, ps)
  {
  }

  lemma FrontierMovesOn(w: World, k: nat, e: Event)
    requires InvAt(w, k) && Next(w, e).Some? && !e.Finish?
    ensures var v := Next(w, e).value;
            Frontier(w, At(w.tasks, k)) <= Frontier(v, At(v.tasks, Holder(w, k, e)))
  {
    if e.Go? && w.tasks[e.i].Completing? {
      BuffersAppend(w.settled, w.session.sending, w.tasks[e.i].ok);
      FlattenAppend(Buffers(w.settled), w.session.sending);
    } else if e.Go? && w.tasks[e.i] == Cleared(false) {
      BuffersAppend(w.settled, w.session.queue, false);
      FlattenAppend(Buffers(w.settled), w.session.queue);
    }
  }

  /** The bytes of the batch in flight sit in the accepted stream right after the settled ones. */
  lemma BatchInStream(w: World, i: nat)
    requires Ordered(w) && i < |Flatten(w.session.sending)|
    ensures var stream := Flatten(w.accepted);
            SettledSize(w) + i < |stream| && stream[SettledSize(w) + i] == Flatten(w.session.sending)[i]
  {
    FlattenAppend(Buffers(w.settled), w.session.sending);
    FlattenAppend(Buffers(w.settled) + w.session.sending, w.session.queue);
  }

  lemma FinishKeepsWire(w: World, k: nat, e: Event, ps: seq<nat>)
    requires InvAt(w, k) && WirePhase(w, At(w.tasks, k), ps) && Next(w, e).Some? && e.Finish?
    ensures var v := Next(w, e).value;
            WirePhase(v, At(v.tasks, k), ps + Positions(SettledSize(w), e.sent))
  {
    assert w.tasks[e.i].payload == w.session.sending;
    var next, stream := ps + Positions(SettledSize(w), e.sent), Flatten(w.accepted);
    var wire := Next(w, e).value.wire;
    forall i | 0 <= i < |next|
      ensures next[i] < |stream| && wire[i] == stream[next[i]]
    {
      if |ps| <= i {
        BatchInStream(w, i - |ps|);
      }
    }
  }

  lemma {:induction false} RunKeepsWire(es: seq<Event>) returns (k: nat)
    requires Run(Start(), es).Some?
    ensures var w := Run(Start(), es).value;
            InvAt(w, k) && WirePhase(w, At(w.tasks, k), Origins(es))
  {
    k := 0;
    if es != [] {
      var last := |es| - 1;
      var ps := Origins(es[..last]);
      k := RunKeepsWire(es[..last]);
      var m := Run(Start(), es[..last]).value;
      StepKeepsInv(m, k, es[last]);
      if es[last].Finish? {
        FinishKeepsWire(m, k, es[last], ps);
      } else {
        QuietKeepsWire(m, k, es[last], ps);
        assert Origins(es) == ps;
      }
      k := Holder(m, k, es[last]);
    }
  }

  /** Whatever the network does, the peer sees accepted bytes, each at most once and in the order of acceptance. */
  lemma {:induction false} WireKeepsOrder(es: seq<Event>)
    requires Run(Start(), es).Some?
    ensures Embeds(Run(Start(), es).value, Origins(es))
  {
    var k := RunKeepsWire(es);
  }

  /** Whenever a write sends something, all the bytes settled so far are on the wire. */
  predicate Gapless(es: seq<Event>) {
    es == [] ||
    var init, e := es[..|es| - 1], es[|es| - 1];
    var m := Run(Start(), init);
    Gapless(init) && (e.Finish? && 0 < e.sent && m.Some? ==> |m.value.wire| == SettledSize(m.value))
  }

  predicate Identity(ps: seq<nat>) {
    forall i :: 0 <= i < |ps| ==> ps[i] == i
  }

  lemma IdentityAppend(ps: seq<nat>, start: nat, n: nat)
    ensures Identity(ps + Positions(start, n)) <==> Identity(ps) && (n == 0 || start == |ps|)
  {
    var next := ps + Positions(start, n);
    assert forall i :: 0 <= i < |ps| ==> next[i] == ps[i];
    if n > 0 {
      assert next[|ps|] == start;
    }
  }

  lemma IdentityIsPrefix(w: World, ps: seq<nat>)
    requires Embeds(w, ps) && Identity(ps)
    ensures PrefixOnWire(w)
  {
    var n := |w.wire|;
    assert n > 0 ==> ps[n - 1] < |Flatten(w.accepted)|;
    assert w.wire == Flatten(w.accepted)[..n];
  }

  /**
   The wire carries the accepted bytes from the first one on, none skipped, exactly when no write sends anything
   while a settled byte is missing.
   */
  lemma {:induction false} WireSkipsNothingExactly(es: seq<Event>)
    requires Run(Start(), es).Some?
    ensures Identity(Origins(es)) <==> Gapless(es)
    ensures Gapless(es) ==> PrefixOnWire(Run(Start(), es).value)
  {
    WireKeepsOrder(es);
    if es != [] {
      var last := |es| - 1;
      var m := Run(Start(), es[..last]).value;
      WireSkipsNothingExactly(es[..last]);
      WireKeepsOrder(es[..last]);
      if es[last].Finish? {
        IdentityAppend(Origins(es[..last]), SettledSize(m), es[last].sent);
      } else {
        assert Origins(es) == Origins(es[..last]);
      }
    }
    if Gapless(es) {
      IdentityIsPrefix(Run(Start(), es).value, Origins(es));
    }
  }

  // ----- Over a stream socket -----

  /** Until a write fails, every byte let go of is on the wire. */
  predicate StreamPhase(w: World, t: Task) {
    !w.broken ==> |w.wire| == Frontier(w, t)
  }

  lemma StepKeepsStream(w: World, k: nat, e: Event)
    requires InvAt(w, k) && StreamPhase(w, At(w.tasks, k)) && Next(w, e).Some? && StreamAllows(w, e)
    ensures var v := Next(w, e).value; StreamPhase(v, At(v.tasks, Holder(w, k, e)))
  {
    if e.Go? && w.tasks[e.i].Completing? {
      BuffersAppend(w.settled, w.session.sending, w.tasks[e.i].ok);
      FlattenAppend(Buffers(w.settled), w.session.sending);
    }
  }

  lemma {:induction false} StreamRunKeepsPromise(es: seq<Event>) returns (k: nat)
    requires Run(Start(), es).Some? && StreamRun(Start(), es)
    ensures var w := Run(Start(), es).value; InvAt(w, k) && StreamPhase(w, At(w.tasks, k))
    ensures !LateSuccess(es) && Gapless(es)
  {
    k := 0;
    if es != [] {
      var last := |es| - 1;
      k := StreamRunKeepsPromise(es[..last]);
      var m := Run(Start(), es[..last]).value;
      StepKeepsInv(m, k, es[last]);
      StepKeepsStream(m, k, es[last]);
      AnswersSnoc(es);
      var l := RunKeepsDelivery(es[..last]);
      k := Holder(m, k, es[last]);
    }
  }

  /**
   Over a stream socket both conditions hold: what was delivered is a prefix of what was accepted, what was
   dropped comes next, and the bytes on the wire are a prefix of the accepted bytes.
   */
  lemma PrefixDelivery(es: seq<Event>)
    requires Run(Start(), es).Some? && StreamRun(Start(), es)
    ensures !LateSuccess(es) && Gapless(es)
    ensures var w := Run(Start(), es).value;
            && w.accepted == Pick(w.settled, true) + Pick(w.settled, false) + w.session.sending + w.session.queue
            && PrefixOnWire(w)
  {
    var k := StreamRunKeepsPromise(es);
    DeliveryOrderExactly(es);
    WireSkipsNothingExactly(es);
  }

  // ----- Without that promise -----

  lemma RunSnoc(w: World, es: seq<Event>, e: Event)
    requires Run(w, es).Some?
    ensures Run(w, es + [e]) == Next(Run(w, es).value, e)
  {
    assert (es + [e])[..|es|] == es;
  }

  /** From posting the flush to calling async_write, step by step. */
  lemma FlushRoundSteps(m: World, i: nat)
    requires i < |m.tasks| && m.tasks[i].OwesFlush? && m.session.queue != []
    ensures var s := m.session.(queue := m.session.sending, sending := m.session.queue);
            && Next(m, Go(i)) == Some(m.(tasks := m.tasks[i := FlushPosted]))
            && Next(m.(tasks := m.tasks[i := FlushPosted]), Go(i)) == Some(m.(tasks := m.tasks[i := Flushing]))
            && Next(m.(tasks := m.tasks[i := Flushing]), Go(i))
               == Some(m.(session := s, tasks := m.tasks[i := Gathering]))
            && Next(m.(session := s, tasks := m.tasks[i := Gathering]), Go(i))
               == Some(m.(session := s, tasks := m.tasks[i := Writing(m.session.queue)]))
  {
    UpdateTwice(m.tasks, i, FlushPosted, Flushing);
    UpdateTwice(m.tasks, i, Flushing, Gathering);
    UpdateTwice(m.tasks, i, Gathering, Writing(m.session.queue));
  }

  lemma UpdateTwice<T>(s: seq<T>, i: nat, a: T, b: T)
    requires i < |s|
    ensures s[i := a][i := b] == s[i := b]
  {
  }

  lemma FlushRoundWrites(w: World, es: seq<Event>, i: nat)
    requires Run(w, es).Some?
    requires var m := Run(w, es).value; i < |m.tasks| && m.tasks[i].OwesFlush? && m.session.queue != []
    ensures var m := Run(w, es).value;
            var s := m.session;
            Run(w, es + [Go(i)] + [Go(i)] + [Go(i)] + [Go(i)])
            == Some(m.(session := s.(queue := s.sending, sending := s.queue), tasks := m.tasks[i := Writing(s.queue)]))
  {
    FlushRoundSteps(Run(w, es).value, i);
    RunSnoc(w, es, Go(i));
    RunSnoc(w, es + [Go(i)], Go(i));
    RunSnoc(w, es + [Go(i)] + [Go(i)], Go(i));
    RunSnoc(w, es + [Go(i)] + [Go(i)] + [Go(i)], Go(i));
  }

  /** Send a buffer and let its flush call async_write, while nobody else is on the way to a write. */
  lemma SendAndWrite(w: World, es: seq<Event>, b: Buffer) returns (fs: seq<Event>)
    requires Run(w, es).Some? && Run(w, es).value.session == Session([], false, [])
    ensures var m := Run(w, es).value;
            Run(w, fs) == Some(m.(session := Session([], true, [b]), accepted := m.accepted + [b],
                                  tasks := m.tasks + [Writing([b])]))
  {
    var m := Run(w, es).value;
    var i := |m.tasks|;
    RunSnoc(w, es, Send(b));
    fs := es + [Send(b)];
    var sent := Run(w, fs).value;
    assert [] + [b] == [b];
    assert sent == m.(session := Session([b], true, []), accepted := m.accepted + [b], tasks := m.tasks + [OwesFlush]);
    FlushRoundWrites(w, fs, i);
    fs := fs + [Go(i)] + [Go(i)] + [Go(i)] + [Go(i)];
    assert sent.tasks[i := Writing([b])] == m.tasks + [Writing([b])];
  }

  /** The state of a session whose only buffer failed, at CompleteSend's successive stages. */
  function Failed(a: Buffer, stage: Task): World {
    World(if stage.Closing? then Session([], false, []) else Session([], true, if stage.Completing? then [a] else []),
          [stage], [a], if stage.Completing? then [] else [Settlement(a, false)], [], true, false)
  }

  lemma FailureStages(a: Buffer)
    ensures Next(Failed(a, Completing(false)), Go(0)) == Some(Failed(a, Cleared(false)))
    ensures Next(Failed(a, Cleared(false)), Go(0)) == Some(Failed(a, Closing))
  {
    var w := Failed(a, Completing(false));
    assert [] + Settle([a], false) == [Settlement(a, false)];
    assert [Completing(false)][0 := Cleared(false)] == [Cleared(false)];
    assert [Settlement(a, false)] + Settle([], false) == [Settlement(a, false)];
    assert [Cleared(false)][0 := Closing] == [Closing];
  }

  /** A single buffer whose write fails outright is dropped, and the socket is yet to be closed. */
  lemma FirstWriteFails(a: Buffer) returns (es: seq<Event>)
    ensures Run(Start(), es) == Some(Failed(a, Closing))
  {
    var w := Start();
    es := SendAndWrite(w, [], a);
    assert Run(w, es).value == World(Session([], true, [a]), [Writing([a])], [a], [], [], false, false);
    RunSnoc(w, es, Finish(0, false, 0));
    es := es + [Finish(0, false, 0)];
    assert Run(w, es).value == Failed(a, Completing(false)) by {
      assert [Writing([a])][0 := Completing(false)] == [Completing(false)];
    }
    FailureStages(a);
    RunSnoc(w, es, Go(0));
    RunSnoc(w, es + [Go(0)], Go(0));
    es := es + [Go(0)] + [Go(0)];
  }

  /** What such a log and such a wire mean. */
  lemma SecondWithoutFirst(w: World, a: Buffer, b: Buffer)
    requires !(b <= a + b)
    requires w.settled == [Settlement(a, false), Settlement(b, true)] && w.session == Session([], true, [])
    requires w.accepted == [a, b] && w.wire == b
    ensures !DeliveredFirst(w.settled) && !PrefixOnWire(w)
    ensures w.accepted != Pick(w.settled, true) + Pick(w.settled, false) + w.session.sending + w.session.queue
  {
    assert w.settled[1].ok && !w.settled[0].ok;
    assert w.settled[1..] == [Settlement(b, true)] && w.settled[1..][1..] == [];
    assert Pick(w.settled[1..], true) == [b];
    assert [a, b][1..] == [b];
    FlattenOne(b);
  }

  /**
   The conditions can fail.  CompleteSend lowers the flag before it closes the socket, so after a failed write
   a new Send can start another; should that one succeed, the second buffer is delivered and the first is not.
   */
  lemma PrefixNeedsStream(a: Buffer, b: Buffer) returns (es: seq<Event>)
    requires !(b <= a + b)
    ensures Run(Start(), es).Some?
    ensures var w := Run(Start(), es).value;
            && w.accepted == [a, b] && w.wire == b && !w.closed && !PrefixOnWire(w)
            && w.settled == [Settlement(a, false), Settlement(b, true)] && !DeliveredFirst(w.settled)
            && w.accepted != Pick(w.settled, true) + Pick(w.settled, false) + w.session.sending + w.session.queue
    ensures LateSuccess(es) && !Gapless(es)
  {
    var w := Start();
    es := FirstWriteFails(a);
    es := SendAndWrite(w, es, b);
    assert Run(w, es).value.tasks[1] == Writing([b]);
    FlattenOne(b);
    RunSnoc(w, es, Finish(1, true, |b|));
    es := es + [Finish(1, true, |b|)];
    RunSnoc(w, es, Go(1));
    es := es + [Go(1)];
    assert [a] + [b] == [a, b];
    assert Run(w, es).value.settled == [Settlement(a, false), Settlement(b, true)];
    SecondWithoutFirst(Run(w, es).value, a, b);
    if !LateSuccess(es) {
      DeliveryOrderExactly(es);
    }
    WireSkipsNothingExactly(es);
  }

  // ----- Where runs stop -----

  /** All is picked exactly when all was delivered. */
  lemma {:induction false} AllPicked(log: seq<Settlement>)
    ensures |Pick(log, true)| <= |log|
    ensures Pick(log, true) == Buffers(log) <==> AllDelivered(log)
  {
    if log != [] {
      AllPicked(log[1..]);
      assert Buffers(log)[1..] == Buffers(log[1..]);
      assert log[0].ok ==> Pick(log, true)[1..] == Pick(log[1..], true);
      assert AllDelivered(log) <==> log[0].ok && AllDelivered(log[1..]);
    }
  }

  /** No lost wakeup: where runs stop nothing is queued or in flight, and unless a write failed all was delivered. */
  lemma QuietMeansDrained(es: seq<Event>)
    requires Run(Start(), es).Some? && Quiet(Run(Start(), es).value)
    ensures var w := Run(Start(), es).value;
            && w.session == Session([], false, [])
            && w.accepted == Buffers(w.settled)
            && (Pick(w.settled, true) == w.accepted <==> !AnyFailure(es))
            && (!AnyFailure(es) && StreamRun(Start(), es) ==> w.wire == Flatten(w.accepted))
  {
    var k := RunKeepsDelivery(es);
    var w := Run(Start(), es).value;
    assert At(w.tasks, k) == Done;
    AllPicked(w.settled);
    if !AnyFailure(es) && StreamRun(Start(), es) {
      k := StreamRunKeepsPromise(es);
      assert At(w.tasks, k) == Done;
      WireSkipsNothingExactly(es);
    }
  }
}
