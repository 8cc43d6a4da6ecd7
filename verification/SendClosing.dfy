/** Which buffers a session accepts, and when its socket is closed. */
module SendClosing {
  import opened Basics
  import opened SendProtocol
  import opened SendProofs
  import opened SendDelivery

  // ----- Accepting -----

  /** The buffers of those Sends that found fewer than 1024 queued. */
  function Admitted(es: seq<Event>): seq<Buffer> {
    if es == [] then []
    else
      var init, e := es[..|es| - 1], es[|es| - 1];
      var m := Run(Start(), init);
      Admitted(init) + if e.Send? && m.Some? && |m.value.session.queue| < 1024 then [e.b] else []
  }

  lemma StepAccepts(w: World, e: Event)
    requires Next(w, e).Some?
    ensures Next(w, e).value.accepted
         == w.accepted + if e.Send? && |w.session.queue| < 1024 then [e.b] else []
  {
    assert w.accepted + [] == w.accepted;
    match e
    case Send(b) =>
    case Go(i) =>
    case Finish(i, ok, sent) =>
  }

  /** A Send is accepted exactly when it finds fewer than 1024 buffers queued, and nothing else is. */
  lemma {:induction false} AcceptedExactly(es: seq<Event>)
    requires Run(Start(), es).Some?
    ensures Run(Start(), es).value.accepted == Admitted(es)
  {
    if es != [] {
      var last := |es| - 1;
      AcceptedExactly(es[..last]);
      StepAccepts(Run(Start(), es[..last]).value, es[last]);
    }
  }

  // ----- Closing -----

  /** The Send at `i` found the queue full. */
  predicate OverflowAt(es: seq<Event>, i: nat)
    requires i < |es|
  {
    && es[i].Send?
    && Run(Start(), es[..i]).Some?
    && 1024 <= |Run(Start(), es[..i]).value.session.queue|
  }

  predicate Overflowed(es: seq<Event>) {
    exists i :: 0 <= i < |es| && OverflowAt(es, i)
  }

  lemma OverflowSnoc(es: seq<Event>)
    requires es != []
    ensures Overflowed(es) <==> Overflowed(es[..|es| - 1]) || OverflowAt(es, |es| - 1)
  {
    var init := es[..|es| - 1];
    forall i | 0 <= i < |init|
      ensures OverflowAt(es, i) <==> OverflowAt(init, i)
    {
      assert init[..i] == es[..i];
    }
  }

  /** The task will close the socket. */
  predicate WillClose(t: Task) {
    t in {Completing(false), Cleared(false), OwesClose, ClosePosted, Closing}
  }

  /** The socket is closed, or some activity is on its way to close it. */
  predicate Doomed(w: World) {
    w.closed || exists i :: 0 <= i < |w.tasks| && WillClose(w.tasks[i])
  }

  /** A step condemns the session exactly if it fails a write or finds the queue full; nothing takes that back. */
  lemma StepDooms(w: World, e: Event)
    requires Next(w, e).Some?
    ensures Doomed(Next(w, e).value) <==> Doomed(w) || Failure(e) || (e.Send? && 1024 <= |w.session.queue|)
  {
    var v := Next(w, e).value;
    if e.Send? {
      assert v.tasks[..|w.tasks|] == w.tasks;
      assert forall j :: 0 <= j < |w.tasks| ==> v.tasks[j] == w.tasks[j];
      assert WillClose(v.tasks[|w.tasks|]) <==> 1024 <= |w.session.queue|;
    } else {
      assert forall j :: 0 <= j < |w.tasks| && j != e.i ==> v.tasks[j] == w.tasks[j];
      assert v.closed || WillClose(v.tasks[e.i]) <==> w.closed || WillClose(w.tasks[e.i]) || Failure(e);
    }
  }

  lemma {:induction false} DoomedExactly(es: seq<Event>)
    requires Run(Start(), es).Some?
    ensures Doomed(Run(Start(), es).value) <==> AnyFailure(es) || Overflowed(es)
  {
    if es != [] {
      var last := |es| - 1;
      DoomedExactly(es[..last]);
      StepDooms(Run(Start(), es[..last]).value, es[last]);
      AnswersSnoc(es);
      OverflowSnoc(es);
    }
  }

  /**
   The socket is only ever closed after a failed write or a Send that found the queue full, and where a run
   stops it is closed if there was either.
   */
  lemma ClosedExactly(es: seq<Event>)
    requires Run(Start(), es).Some?
    ensures var w := Run(Start(), es).value;
            && (w.closed ==> AnyFailure(es) || Overflowed(es))
            && (Quiet(w) ==> (w.closed <==> AnyFailure(es) || Overflowed(es)))
  {
    DoomedExactly(es);
  }
}
