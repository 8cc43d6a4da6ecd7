/**
 The lifecycle of the handles of one side (writers, or readers) of a ring buffer.  A handle is named by a
 number; it is live while its owner, pointer and size are set.
 */
module RingHandles {

  datatype Pool = Pool(
    active: bool,            // m_isActiveWriter, or m_isActiveReader
    live: map<nat, bool>,    // the handles in existence, and whether IsValid() holds of each
    granted: nat,            // reservations handed out so far
    settled: nat             // reservations committed or given up so far
  )

  datatype Op =
    | Create(id: nat, grant: bool)   // Create(All)Writer/Reader; the cursors decide the grant
    | Move(from: nat, to: nat)       // move construction of `to`
    | Settle(id: nat)                // Commit or GiveUp
    | Destroy(id: nat)               // the destructor, which commits a live handle

  /** `Misuse`: an ASSERT on the caller, or an operation on no handle.  `Broken`: "No active writer/reader". */
  datatype Result = Done(pool: Pool) | Misuse | Broken

  function DoSettle(p: Pool, id: nat): Result {
    if !p.active then Broken
    else Done(p.(active := false, live := p.live[id := false], settled := p.settled + 1))
  }

  function Next(p: Pool, op: Op): Result {
    match op
    case Create(id, grant) =>
      if p.active || id in p.live then Misuse
      else if grant then Done(p.(active := true, live := p.live[id := true], granted := p.granted + 1))
      else Done(p.(live := p.live[id := false]))
    case Move(from, to) =>
      if from !in p.live || to in p.live || !p.live[from] then Misuse
      else Done(p.(live := p.live[from := false][to := true]))
    case Settle(id) =>
      if id !in p.live || !p.live[id] then Misuse else DoSettle(p, id)
    case Destroy(id) =>
      if id !in p.live then Misuse
      else
        var o := if p.live[id] then DoSettle(p, id) else Done(p);
        if o.Done? then Done(o.pool.(live := o.pool.live - {id})) else o
  }

  function Run(p: Pool, ops: seq<Op>): Result {
    if ops == [] then Done(p)
    else
      var o := Run(p, ops[..|ops| - 1]);
      if o.Done? then Next(o.pool, ops[|ops| - 1]) else o
  }

  predicate Live(p: Pool, id: nat) {
    id in p.live && p.live[id]
  }

  /** The flag is up exactly when there is a live handle, and then there is one only. */
  ghost predicate Linear(p: Pool) {
    && (p.active <==> exists id :: Live(p, id))
    && (forall a, b :: Live(p, a) && Live(p, b) ==> a == b)
    && p.granted == p.settled + (if p.active then 1 else 0)
  }

  lemma StepIsLinear(p: Pool, op: Op)
    requires Linear(p)
    ensures Next(p, op) != Broken
    ensures Next(p, op).Done? ==> Linear(Next(p, op).pool)
  {
    if op.Settle? || op.Destroy? {
      assert Live(p, op.id) ==> p.active;
    }
    if Next(p, op).Done? {
      var q := Next(p, op).pool;
      match op
      case Create(id, grant) =>
        assert forall x :: Live(q, x) <==> Live(p, x) || (grant && x == id);
        assert grant ==> Live(q, id);
      case Move(from, to) =>
        assert Live(p, from) && Live(q, to);
        assert forall x :: Live(q, x) ==> x == to || (Live(p, x) && x != from);
      case Settle(id) =>
        assert forall x :: Live(q, x) ==> Live(p, x) && x != id;
      case Destroy(id) =>
        assert forall x :: Live(q, x) <==> Live(p, x) && x != id;
    }
  }

  /** The ASSERTs that fire are those on the caller. */
  lemma MisuseExactly(p: Pool, op: Op)
    requires Linear(p)
    ensures Next(p, op) != Broken
    ensures op.Create? ==> (Next(p, op) == Misuse <==> p.active || op.id in p.live)
    ensures op.Move? ==> (Next(p, op) == Misuse <==> !Live(p, op.from) || op.to in p.live)
    ensures op.Settle? ==> (Next(p, op) == Misuse <==> !Live(p, op.id))
    ensures op.Destroy? ==> (Next(p, op) == Misuse <==> op.id !in p.live)
  {
    StepIsLinear(p, op);
  }

  /** Which handles an operation makes, makes live, kills and removes, and what it counts. */
  lemma StepEffect(p: Pool, op: Op)
    requires Linear(p) && Next(p, op).Done?
    ensures var q := Next(p, op).pool;
            match op
            case Create(id, grant) =>
              && q.live.Keys == p.live.Keys + {id} && (forall x :: Live(q, x) <==> Live(p, x) || (grant && x == id))
              && q.granted == p.granted + (if grant then 1 else 0) && q.settled == p.settled
            case Move(from, to) =>
              && q.live.Keys == p.live.Keys + {to}
              && (forall x :: Live(q, x) <==> x == to || (Live(p, x) && x != from))
              && q.granted == p.granted && q.settled == p.settled
            case Settle(id) =>
              && q.live.Keys == p.live.Keys && (forall x :: Live(q, x) <==> Live(p, x) && x != id)
              && q.granted == p.granted && q.settled == p.settled + 1
            case Destroy(id) =>
              && q.live.Keys == p.live.Keys - {id} && (forall x :: Live(q, x) <==> Live(p, x) && x != id)
              && q.granted == p.granted && q.settled == p.settled + (if Live(p, id) then 1 else 0)
  {
    StepIsLinear(p, op);
    assert op.Move? ==> op.from in p.live;
  }

  /** Over every run: one live handle per reservation, and each reservation is settled exactly once. */
  lemma {:induction false} ReservationsAreLinear(ops: seq<Op>)
    ensures var o := Run(Pool(false, map[], 0, 0), ops);
            o != Broken && (o.Done? ==> Linear(o.pool))
  {
    var p0 := Pool(false, map[], 0, 0);
    if ops != [] {
      ReservationsAreLinear(ops[..|ops| - 1]);
      var o := Run(p0, ops[..|ops| - 1]);
      if o.Done? {
        StepIsLinear(o.pool, ops[|ops| - 1]);
      }
    }
  }

  /** Once every handle is destroyed nothing is reserved: the first two ASSERTs of the buffer's destructor hold. */
  lemma NoHandleNoReservation(ops: seq<Op>)
    requires var o := Run(Pool(false, map[], 0, 0), ops);
             o.Done? && o.pool.live == map[]
    ensures var p := Run(Pool(false, map[], 0, 0), ops).pool;
            !p.active && p.granted == p.settled
  {
    ReservationsAreLinear(ops);
  }
}
