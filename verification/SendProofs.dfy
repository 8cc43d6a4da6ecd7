/** Safety, conservation and termination of the send path, for any number of senders and without a strand. */
module SendProofs {
  import opened Basics
  import opened SendProtocol

  function At(tasks: seq<Task>, k: nat): Task {
    if k < |tasks| then tasks[k] else Done
  }

  /** The shared state as seen by `t`, the only task that can hold the token. */
  predicate Phase(w: World, t: Task) {
    var s := w.session;
    && (s.isSending <==> HasToken(t))
    && (s.queue != [] ==> HasToken(t))
    && (s.sending != [] ==> Carries(t))
    && (t.Writing? ==> t.payload == s.sending)
    && |s.queue| <= MAX_SEND_QUEUE
    && |s.sending| <= MAX_SEND_QUEUE
    && Ordered(w)
    && (t in {Completing(false), Cleared(false)} ==> w.broken)
    && (!w.broken ==> AllDelivered(w.settled))
  }

  /** The inductive invariant: task `k` may hold the token, no other does. */
  predicate InvAt(w: World, k: nat) {
    && (forall j :: 0 <= j < |w.tasks| && j != k ==> !HasToken(w.tasks[j]))
    && Phase(w, At(w.tasks, k))
  }

  ghost predicate Inv(w: World) {
    exists k :: InvAt(w, k)
  }

  /** Who may hold the token after a step, if `k` may before it. */
  function Holder(w: World, k: nat, e: Event): nat {
    if e.Send? && |w.session.queue| < MAX_SEND_QUEUE && !w.session.isSending then |w.tasks| else k
  }

  // ----- One step -----

  lemma BuffersAppend(log: seq<Settlement>, bs: seq<Buffer>, ok: bool)
    ensures Buffers(log + Settle(bs, ok)) == Buffers(log) + bs
  {
  }

  lemma OverflowStep(w: World, k: nat, b: Buffer)
    requires InvAt(w, k) && MAX_SEND_QUEUE <= |w.session.queue|
    ensures InvAt(DoSend(w, b), k)
  {
  }

  lemma EnqueueStep(w: World, k: nat, b: Buffer)
    requires InvAt(w, k) && |w.session.queue| < MAX_SEND_QUEUE
    ensures InvAt(DoSend(w, b), if w.session.isSending then k else |w.tasks|)
  {
    Associative(Buffers(w.settled) + w.session.sending, w.session.queue, [b]);
  }

  lemma PhaseFrame(w: World, v: World, t: Task)
    requires Phase(w, t)
    requires v == w.(tasks := v.tasks, closed := v.closed)
    ensures Phase(v, t)
  {
  }

  /** Tasks outside the token set change nothing but the socket's state. */
  lemma OutsideStep(w: World, k: nat, i: nat)
    requires InvAt(w, k) && i < |w.tasks| && !HasToken(w.tasks[i]) && DoGo(w, i).Some?
    ensures InvAt(DoGo(w, i).value, k)
  {
    var v := DoGo(w, i).value;
    if i == k {
      PhaseFrame(w, v, w.tasks[k]);
    } else {
      PhaseFrame(w, v, At(w.tasks, k));
    }
  }

  lemma TokenStep(w: World, k: nat)
    requires InvAt(w, k) && k < |w.tasks| && HasToken(w.tasks[k]) && DoGo(w, k).Some?
    ensures InvAt(DoGo(w, k).value, k)
  {
    match w.tasks[k]
    case Completing(ok) => BuffersAppend(w.settled, w.session.sending, ok);
    case Cleared(ok) => BuffersAppend(w.settled, w.session.queue, false);
    case _ =>
  }

  lemma FinishStep(w: World, k: nat, ok: bool, sent: nat)
    requires InvAt(w, k) && k < |w.tasks| && Next(w, Finish(k, ok, sent)).Some?
    ensures InvAt(Next(w, Finish(k, ok, sent)).value, k)
  {
  }

  lemma StepKeepsInv(w: World, k: nat, e: Event)
    requires InvAt(w, k) && Next(w, e).Some?
    ensures InvAt(Next(w, e).value, Holder(w, k, e))
  {
    match e
    case Send(b) => if MAX_SEND_QUEUE <= |w.session.queue| { OverflowStep(w, k, b); } else { EnqueueStep(w, k, b); }
    case Go(i) => if HasToken(w.tasks[i]) { TokenStep(w, i); } else { OutsideStep(w, k, i); }
    case Finish(i, ok, sent) => FinishStep(w, i, ok, sent);
  }

  // ----- Every run -----

  lemma {:induction false} RunKeepsInv(w: World, es: seq<Event>)
    requires Inv(w) && Run(w, es).Some?
    ensures Inv(Run(w, es).value)
  {
    if es != [] {
      RunKeepsInv(w, es[..|es| - 1]);
      var m := Run(w, es[..|es| - 1]).value;
      var k :| InvAt(m, k);
      StepKeepsInv(m, k, es[|es| - 1]);
    }
  }

  lemma Reachable(es: seq<Event>)
    requires Run(Start(), es).Some?
    ensures Inv(Run(Start(), es).value)
  {
    assert InvAt(Start(), 0);
    RunKeepsInv(Start(), es);
  }

  lemma InvMeans(w: World)
    requires Inv(w)
    ensures LinearToken(w) && Custody(w) && Ordered(w)
  {
    var k :| InvAt(w, k);
    assert HasToken(At(w.tasks, k)) ==> TokenAt(w, k);
    assert Carries(At(w.tasks, k)) ==> CarriesAt(w, k);
  }

  /**
   In every reachable state, with any number of senders, no strand and any network: the flag is a linear
   token, buffers and handlers find each other, and nothing accepted is lost, duplicated or reordered.
   */
  lemma SendPathIsSafe(es: seq<Event>)
    requires Run(Start(), es).Some?
    ensures var w := Run(Start(), es).value;
            LinearToken(w) && Custody(w) && Ordered(w)
  {
    Reachable(es);
    InvMeans(Run(Start(), es).value);
  }

  /**
   Whoever holds buffers taken off the queue is alone: no second write can be outstanding, and no other
   activity on the way to or from a write can touch m_sendingBuffers.
   */
  lemma OneWriteOutstanding(es: seq<Event>, i: nat, j: nat)
    requires Run(Start(), es).Some?
    requires CarriesAt(Run(Start(), es).value, i) && TokenAt(Run(Start(), es).value, j)
    ensures i == j
  {
    SendPathIsSafe(es);
    var w := Run(Start(), es).value;
    assert TokenAt(w, i);
  }

  // ----- Conservation -----

  lemma {:induction false} PicksSplitLog(log: seq<Settlement>)
    ensures multiset(Buffers(log)) == multiset(Pick(log, true)) + multiset(Pick(log, false))
    ensures |log| == |Pick(log, true)| + |Pick(log, false)|
  {
    if log != [] {
      PicksSplitLog(log[1..]);
      assert Buffers(log) == [log[0].b] + Buffers(log[1..]);
    }
  }

  /**
   Every accepted buffer was delivered once, dropped once, is in flight or is queued, the last two bounded:
   as numbers and buffer by buffer, whatever the network does.
   */
  lemma {:induction false} Conservation(es: seq<Event>)
    requires Run(Start(), es).Some?
    ensures var w := Run(Start(), es).value;
            var delivered, dropped := Pick(w.settled, true), Pick(w.settled, false);
            && |w.accepted| == |delivered| + |dropped| + |w.session.sending| + |w.session.queue|
            && multiset(w.accepted)
               == multiset(delivered) + multiset(dropped) + multiset(w.session.sending) + multiset(w.session.queue)
            && |w.session.sending| <= 1024 && |w.session.queue| <= 1024
  {
    SendPathIsSafe(es);
    PicksSplitLog(Run(Start(), es).value.settled);
  }

  // ----- Termination without further sends -----

  /** Steps a task still has to take when nothing is queued; a gatherer still has its write ahead. */
  function Steps(t: Task): nat {
    match t
    case Gathering => 5
    case Writing(_) => 4
    case OwesFlush => 3
    case Completing(_) => 3
    case OwesClose => 3
    case FlushPosted => 2
    case Cleared(_) => 2
    case ClosePosted => 2
    case Flushing => 1
    case Closing => 1
    case Done => 0
  }

  function TotalSteps(ts: seq<Task>): nat {
    if ts == [] then 0 else Steps(ts[0]) + TotalSteps(ts[1..])
  }

  lemma {:induction false} TotalAfterUpdate(ts: seq<Task>, i: nat, t: Task)
    requires i < |ts|
    ensures TotalSteps(ts[i := t]) == TotalSteps(ts) - Steps(ts[i]) + Steps(t)
  {
    if i == 0 {
      assert ts[i := t][1..] == ts[1..];
    } else {
      TotalAfterUpdate(ts[1..], i - 1, t);
      assert ts[i := t][1..] == ts[1..][i - 1 := t];
    }
  }

  /** A bound on the steps left: a queued batch costs one more round through gather, write and completion. */
  function Rank(w: World): nat {
    TotalSteps(w.tasks) + if w.session.queue == [] then 0 else 5
  }

  predicate WriteAhead(t: Task) {
    t.Gathering? || t.Writing?
  }

  /** Write completions still to come: the one under way and the one for what is queued. */
  ghost function PendingWrites(w: World): nat {
    (if exists i :: 0 <= i < |w.tasks| && WriteAhead(w.tasks[i]) then 1 else 0)
    + if w.session.queue == [] then 0 else 1
  }

  function WriteCompletions(es: seq<Event>): nat {
    if es == [] then 0
    else WriteCompletions(es[..|es| - 1]) + if es[|es| - 1].Finish? then 1 else 0
  }

  lemma QueueAfterStep(w: World, e: Event)
    requires Inv(w) && !e.Send? && Next(w, e).Some?
    ensures var v := Next(w, e).value;
            && v.tasks == w.tasks[e.i := v.tasks[e.i]]
            && v.session.queue == (if w.tasks[e.i] in {Flushing, Cleared(false)} then [] else w.session.queue)
            && Steps(v.tasks[e.i]) < Steps(w.tasks[e.i]) + (if v.session.queue == w.session.queue then 0 else 5)
  {
    if w.tasks[e.i].Flushing? {
      NothingCarried(w, e.i);
    }
  }

  /** Outside a write, m_sendingBuffers is empty. */
  lemma NothingCarried(w: World, i: nat)
    requires Inv(w) && i < |w.tasks| && HasToken(w.tasks[i]) && !Carries(w.tasks[i])
    ensures w.session.sending == []
  {
    var k :| InvAt(w, k);
  }

  lemma StepDecreasesRank(w: World, e: Event)
    requires Inv(w) && !e.Send? && Next(w, e).Some?
    ensures Rank(Next(w, e).value) < Rank(w)
  {
    QueueAfterStep(w, e);
    TotalAfterUpdate(w.tasks, e.i, Next(w, e).value.tasks[e.i]);
  }

  /** Only the token's task can have a write ahead. */
  lemma WriteAheadIsToken(w: World, k: nat)
    requires InvAt(w, k)
    ensures PendingWrites(w) == (if WriteAhead(At(w.tasks, k)) then 1 else 0) + (if w.session.queue == [] then 0 else 1)
  {
    assert forall j :: 0 <= j < |w.tasks| && WriteAhead(w.tasks[j]) ==> j == k;
    if WriteAhead(At(w.tasks, k)) {
      assert WriteAhead(w.tasks[k]);
    }
  }

  lemma StepUsesPendingWrites(w: World, e: Event)
    requires Inv(w) && !e.Send? && Next(w, e).Some?
    ensures PendingWrites(Next(w, e).value) + (if e.Finish? then 1 else 0) <= PendingWrites(w)
  {
    var k :| InvAt(w, k);
    var v := Next(w, e).value;
    WriteAheadIsToken(w, k);
    StepKeepsInv(w, k, e);
    WriteAheadIsToken(v, k);
    QueueAfterStep(w, e);
  }

  /** Without further sends every run stops within Rank steps, of which at most two are write completions. */
  lemma {:induction false} FlushingTerminates(w: World, es: seq<Event>)
    requires Inv(w) && Run(w, es).Some?
    requires forall e :: e in es ==> !e.Send?
    ensures |es| + Rank(Run(w, es).value) <= Rank(w)
    ensures WriteCompletions(es) + PendingWrites(Run(w, es).value) <= PendingWrites(w) <= 2
  {
    if es != [] {
      var last := |es| - 1;
      FlushingTerminates(w, es[..last]);
      RunKeepsInv(w, es[..last]);
      var m := Run(w, es[..last]).value;
      StepDecreasesRank(m, es[last]);
      StepUsesPendingWrites(m, es[last]);
    }
  }

  predicate Quiet(w: World) {
    forall i :: 0 <= i < |w.tasks| ==> w.tasks[i].Done?
  }

  /** What can happen next: any Send, any answer to a write, and a step of every other unfinished activity. */
  lemma EnabledExactly(w: World, i: nat)
    requires i < |w.tasks|
    ensures forall b :: Next(w, Send(b)).Some?
    ensures Next(w, Go(i)).Some? <==> !w.tasks[i].Done? && !w.tasks[i].Writing?
    ensures forall ok, sent: nat ::
              Next(w, Finish(i, ok, sent)).Some? <==> w.tasks[i].Writing? && sent <= |Flatten(w.tasks[i].payload)|
  {
  }

  /** An unfinished activity can always move, within a stream socket's promise too, so runs only stop when quiet. */
  lemma NoDeadlock(w: World)
    requires !Quiet(w)
    ensures exists e: Event :: !e.Send? && Next(w, e).Some? && StreamAllows(w, e)
  {
    var i :| 0 <= i < |w.tasks| && !w.tasks[i].Done?;
    if w.tasks[i].Writing? {
      var e := if w.broken then Finish(i, false, 0) else Finish(i, true, |Flatten(w.tasks[i].payload)|);
      assert Next(w, e).Some? && StreamAllows(w, e);
    } else {
      assert Next(w, Go(i)).Some? && StreamAllows(w, Go(i));
    }
  }
}
