/**
 The send path of a session as an interleaving of atomic steps.

 Any number of threads call Send, handlers are posted and run on any thread, and nothing serialises them
 but the mutex: each locked section is one step, and so is each gap between two of them.
 */
module SendProtocol {
  import opened Basics

  type Buffer = seq<Byte>

  const MAX_SEND_QUEUE: nat := 1024

  /** The members the send path works on: m_sendQueue, m_isSending, m_sendingBuffers. */
  datatype Session = Session(queue: seq<Buffer>, isSending: bool, sending: seq<Buffer>)

  // ----- The locked sections and the unlocked clear -----

  /** Send under the lock; a full queue is left alone. */
  function Enqueue(s: Session, b: Buffer): Session {
    if MAX_SEND_QUEUE <= |s.queue| then s else s.(queue := s.queue + [b], isSending := true)
  }

  /** FlushSendQueue under the lock: with nothing queued sending stops, otherwise the two vectors swap. */
  function TakeQueue(s: Session): Session {
    if s.queue == [] then s.(isSending := false) else s.(sending := s.queue, queue := s.sending)
  }

  /** The first statement of CompleteSend, outside the lock. */
  function ClearSent(s: Session): Session {
    s.(sending := [])
  }

  /** CompleteSend under the lock, after an error. */
  function DropQueue(s: Session): Session {
    s.(queue := [], isSending := false)
  }

  // ----- Activities -----

  /** Where one activity stands. Whoever started it, it keeps its place in `World.tasks`. */
  datatype Task =
    | OwesFlush      // Send has unlocked and will post FlushSendQueue
    | FlushPosted    // the handler waits to run
    | Flushing       // FlushSendQueue is about to take the lock
    | Gathering      // it has swapped and unlocked, async_write is not called yet
    | Writing(payload: seq<Buffer>)  // async_write is in flight
    | Completing(ok: bool)  // CompleteSend was entered
    | Cleared(ok: bool)     // it has cleared m_sendingBuffers
    | OwesClose      // an overflowing Send will post CloseSocket
    | ClosePosted
    | Closing        // about to call CloseSocket
    | Done

  /** The task may touch m_sendingBuffers, or will cause one that does. */
  predicate HasToken(t: Task) {
    t.OwesFlush? || t.FlushPosted? || t.Flushing? || t.Gathering? || t.Writing? || t.Completing? || t.Cleared?
  }

  /** The task has taken buffers off the queue and not let go of them. */
  predicate Carries(t: Task) {
    t.Gathering? || t.Writing? || t.Completing?
  }

  /** A buffer let go of, and whether its write succeeded. */
  datatype Settlement = Settlement(b: Buffer, ok: bool)

  function Settle(bs: seq<Buffer>, ok: bool): seq<Settlement> {
    seq(|bs|, i requires 0 <= i < |bs| => Settlement(bs[i], ok))
  }

  function Buffers(log: seq<Settlement>): seq<Buffer> {
    seq(|log|, i requires 0 <= i < |log| => log[i].b)
  }

  /** The buffers of the log that were delivered, or those that were dropped. */
  function Pick(log: seq<Settlement>, ok: bool): seq<Buffer> {
    if log == [] then [] else (if log[0].ok == ok then [log[0].b] else []) + Pick(log[1..], ok)
  }

  datatype World = World(
    session: Session,
    tasks: seq<Task>,
    accepted: seq<Buffer>,      // enqueued, in lock order
    settled: seq<Settlement>,   // released, in order of release
    wire: seq<Byte>,            // what the socket has taken
    broken: bool,               // some write has failed
    closed: bool                // CloseSocket has run
  )

  datatype Event =
    | Send(b: Buffer)
    | Go(i: nat)                            // task i takes its next step
    | Finish(i: nat, ok: bool, sent: nat)   // task i's write completes, `sent` bytes having left

  function Start(): World {
    World(Session([], false, []), [], [], [], [], false, false)
  }

  function DoSend(w: World, b: Buffer): World {
    var s := Enqueue(w.session, b);
    if MAX_SEND_QUEUE <= |w.session.queue| then w.(tasks := w.tasks + [OwesClose])
    else
      w.(session := s, accepted := w.accepted + [b],
         tasks := w.tasks + [if w.session.isSending then Done else OwesFlush])
  }

  /** The next step of a task that does not wait for the network; None if there is none. */
  function DoGo(w: World, i: nat): Option<World>
    requires i < |w.tasks|
  {
    var s := w.session;
    match w.tasks[i]
    case OwesFlush => Some(w.(tasks := w.tasks[i := FlushPosted]))
    case FlushPosted => Some(w.(tasks := w.tasks[i := Flushing]))
    case Flushing =>
      Some(w.(session := TakeQueue(s), tasks := w.tasks[i := if s.queue == [] then Done else Gathering]))
    case Gathering =>
      Some(w.(tasks := w.tasks[i := Writing(s.sending)]))
    case Completing(ok) =>
      Some(w.(session := ClearSent(s), tasks := w.tasks[i := Cleared(ok)],
              settled := w.settled + Settle(s.sending, ok)))
    case Cleared(ok) =>
      if ok then Some(w.(tasks := w.tasks[i := Flushing]))
      else
        Some(w.(session := DropQueue(s), tasks := w.tasks[i := Closing],
                settled := w.settled + Settle(s.queue, false)))
    case OwesClose => Some(w.(tasks := w.tasks[i := ClosePosted]))
    case ClosePosted => Some(w.(tasks := w.tasks[i := Closing]))
    case Closing => Some(w.(closed := true, tasks := w.tasks[i := Done]))
    case _ => None
  }

  /** The network may answer a write with success or failure, after any part of its bytes has left. */
  function Next(w: World, e: Event): Option<World> {
    match e
    case Send(b) => Some(DoSend(w, b))
    case Go(i) => if i < |w.tasks| then DoGo(w, i) else None
    case Finish(i, ok, sent) =>
      if i < |w.tasks| && w.tasks[i].Writing? && sent <= |Flatten(w.tasks[i].payload)| then
        Some(w.(wire := w.wire + Flatten(w.tasks[i].payload)[..sent], broken := w.broken || !ok,
                tasks := w.tasks[i := Completing(ok)]))
      else None
  }

  function Run(w: World, es: seq<Event>): Option<World> {
    if es == [] then Some(w)
    else
      match Run(w, es[..|es| - 1])
      case Some(m) => Next(m, es[|es| - 1])
      case None => None
  }

  /**
   A stream socket's promise, assumed only where it is needed: success means every byte left, and after a
   failed write nothing leaves any more.
   */
  predicate StreamAllows(w: World, e: Event) {
    e.Finish? && e.i < |w.tasks| && w.tasks[e.i].Writing? ==>
      && (e.ok ==> e.sent == |Flatten(w.tasks[e.i].payload)|)
      && (w.broken ==> !e.ok && e.sent == 0)
  }

  predicate StreamRun(w: World, es: seq<Event>) {
    es == [] ||
    var init := es[..|es| - 1];
    StreamRun(w, init) && (Run(w, init).Some? ==> StreamAllows(Run(w, init).value, es[|es| - 1]))
  }

  // ----- What holds in every reachable state -----

  predicate TokenAt(w: World, i: nat) {
    i < |w.tasks| && HasToken(w.tasks[i])
  }

  predicate CarriesAt(w: World, i: nat) {
    i < |w.tasks| && Carries(w.tasks[i])
  }

  /** m_isSending is up exactly when one activity, and only one, is on its way to or from a write. */
  ghost predicate LinearToken(w: World) {
    && (w.session.isSending <==> exists i :: TokenAt(w, i))
    && (forall i, j :: TokenAt(w, i) && TokenAt(w, j) ==> i == j)
  }

  /** Queued buffers have someone coming for them, in-flight ones a holder, and a write its very buffers. */
  ghost predicate Custody(w: World) {
    && (w.session.queue != [] ==> w.session.isSending)
    && (w.session.sending != [] ==> exists i :: CarriesAt(w, i))
    && (forall i :: 0 <= i < |w.tasks| && w.tasks[i].Writing? ==> w.tasks[i].payload == w.session.sending)
    && |w.session.queue| <= MAX_SEND_QUEUE
    && |w.session.sending| <= MAX_SEND_QUEUE
  }

  /** Every accepted buffer is in exactly one place, and the places keep the order of acceptance. */
  predicate Ordered(w: World) {
    w.accepted == Buffers(w.settled) + w.session.sending + w.session.queue
  }

  predicate AllDelivered(log: seq<Settlement>) {
    forall i :: 0 <= i < |log| ==> log[i].ok
  }

  /** Nothing is delivered once something was dropped. */
  predicate DeliveredFirst(log: seq<Settlement>) {
    forall i, j :: 0 <= i < j < |log| && log[j].ok ==> log[i].ok
  }

  /** The peer sees a prefix of what was accepted. */
  predicate PrefixOnWire(w: World) {
    w.wire <= Flatten(w.accepted)
  }
}
