/** The receive path: socket data into the buffer, packets out of it, over every way the stream is cut. */
module Receivers {
  import opened Basics
  import opened Packets
  import opened RecvBuffers

  /** The receive side of a session: its buffer, the packets handed on so far, and whether it gave up. */
  datatype Rx = Rx(linear: Linear, packets: seq<Packet>, closed: bool)

  /** A memmove, as the range of stream offsets whose bytes it moved. */
  datatype Move = Move(from: int, to: int)

  /** A receive side together with the length of the stream so far and the memmoves made. */
  datatype History = History(rx: Rx, received: nat, moves: seq<Move>)

  /** The buffer once every complete packet is taken out. */
  function AfterDrain(l: Linear): (r: Linear)
    requires WellFormed(l)
    ensures WellFormed(r) && Readable(r) == Drain(Readable(l)).rest
  {
    RestIsSuffix(Readable(l));
    Consumed(l, |Readable(l)| - |Drain(Readable(l)).rest|)
  }

  /** `v` is `l` with some of its front consumed. */
  predicate Advanced(l: Linear, v: Linear) {
    v == l.(readPos := v.readPos) && l.readPos <= v.readPos <= l.writePos
  }

  lemma AdvancedToRest(l: Linear, v: Linear)
    requires WellFormed(l) && Advanced(l, v) && Readable(v) == Drain(Readable(l)).rest
    ensures v == AfterDrain(l)
  {
  }

  /** CompleteReceive for `n` bytes already in the writable span. */
  function Complete(rx: Rx, n: nat): (r: Rx)
    requires WellFormed(rx.linear) && n <= WritableSize(rx.linear)
    ensures WellFormed(r.linear)
  {
    var l := Committed(rx.linear, n);
    var d := Drain(Readable(l));
    CompactKeepsReadable(AfterDrain(l));
    Rx(if d.bad then AfterDrain(l) else Compacted(AfterDrain(l)), rx.packets + d.packets, d.bad)
  }

  /** One receive: the socket read stores `chunk` in the writable span, then CompleteReceive runs. */
  function Next(h: History, chunk: seq<Byte>): (o: Option<History>)
    requires WellFormed(h.rx.linear)
    ensures o.Some? ==> WellFormed(o.value.rx.linear)
  {
    if h.rx.closed || |chunk| > WritableSize(h.rx.linear) then None
    else
      var loaded := Loaded(h.rx.linear, chunk);
      var drained := AfterDrain(Committed(loaded, |chunk|));
      var received := h.received + |chunk|;
      var rx := Complete(h.rx.(linear := loaded), |chunk|);
      var moves := if !rx.closed && MustMove(drained)
                   then h.moves + [Move(received - |Readable(drained)|, received)] else h.moves;
      Some(History(rx, received, moves))
  }

  function Run(h: History, chunks: seq<seq<Byte>>): (o: Option<History>)
    requires WellFormed(h.rx.linear)
    ensures o.Some? ==> WellFormed(o.value.rx.linear)
  {
    if chunks == [] then Some(h)
    else
      match Run(h, chunks[..|chunks| - 1])
      case Some(m) => Next(m, chunks[|chunks| - 1])
      case None => None
  }

  /** The space a session keeps writable holds the largest packet; its buffer holds twice that. */
  predicate Config(buf: seq<Byte>, min: nat) {
    MAX_PACKET_SIZE <= min <= |buf| / 2
  }

  function Start(buf: seq<Byte>, min: nat): History {
    History(Rx(Linear(buf, min, 0, 0), [], false), 0, [])
  }

  // ----- Framing -----

  /** The receive side is where draining the whole stream at once would have left it. */
  predicate Framed(rx: Rx, stream: seq<Byte>)
    requires WellFormed(rx.linear)
  {
    Drain(stream) == Drained(rx.packets, Readable(rx.linear), rx.closed)
  }

  lemma StepKeepsFraming(h: History, chunk: seq<Byte>, stream: seq<Byte>)
    requires WellFormed(h.rx.linear) && Framed(h.rx, stream) && Next(h, chunk).Some?
    ensures Framed(Next(h, chunk).value.rx, stream + chunk)
  {
    LoadCommitAppends(h.rx.linear, chunk);
    CompactKeepsReadable(AfterDrain(Committed(Loaded(h.rx.linear, chunk), |chunk|)));
    DrainAppend(stream, chunk);
  }

  lemma {:induction false} ReceivedIsLength(buf: seq<Byte>, min: nat, chunks: seq<seq<Byte>>)
    requires Config(buf, min) && Run(Start(buf, min), chunks).Some?
    ensures Run(Start(buf, min), chunks).value.received == |Flatten(chunks)|
  {
    if chunks != [] {
      ReceivedIsLength(buf, min, chunks[..|chunks| - 1]);
      FlattenLast(chunks);
    }
  }

  /** However a stream is cut into receives, the packets handed on and the leftover depend on the stream alone. */
  lemma {:induction false} ChunkingIsInvisible(buf: seq<Byte>, min: nat, chunks: seq<seq<Byte>>)
    requires Config(buf, min) && Run(Start(buf, min), chunks).Some?
    ensures Framed(Run(Start(buf, min), chunks).value.rx, Flatten(chunks))
  {
    if chunks != [] {
      var init, last := chunks[..|chunks| - 1], chunks[|chunks| - 1];
      ChunkingIsInvisible(buf, min, init);
      StepKeepsFraming(Run(Start(buf, min), init).value, last, Flatten(init));
      FlattenLast(chunks);
    }
  }

  /**
   Packets sent back to back arrive as themselves, in order, whatever the cuts: at any moment a number of
   them has been handed on and the buffer holds a proper prefix of the next.
   */
  lemma {:induction false} PacketsArriveInOrder(buf: seq<Byte>, min: nat, chunks: seq<seq<Byte>>, ps: seq<Packet>)
    returns (j: nat)
    requires Config(buf, min) && Run(Start(buf, min), chunks).Some?
    requires forall p :: p in ps ==> Sendable(p)
    requires Flatten(chunks) <= EncodeAll(ps)
    ensures var rx := Run(Start(buf, min), chunks).value.rx;
            && j <= |ps| && rx.packets == ps[..j] && !rx.closed
            && (if j == |ps| then Readable(rx.linear) == [] else Readable(rx.linear) < Encode(ps[j]))
            && EncodeAll(ps[..j]) + Readable(rx.linear) == Flatten(chunks)
            && (Flatten(chunks) == EncodeAll(ps) ==> j == |ps|)
  {
    ChunkingIsInvisible(buf, min, chunks);
    var part;
    j, part := PrefixSplits(ps, Flatten(chunks));
    if j < |ps| {
      ProperPrefixWaits(ps[j], part);
    }
    DrainInvertsEncode(ps[..j], part);
    if Flatten(chunks) == EncodeAll(ps) && j < |ps| {
      EncodeAllSplits(ps, j);
      assert false;
    }
  }

  // ----- Room to receive -----

  /** An open session takes any chunk that fits behind what it has received, and no other. */
  lemma {:induction false} ReceivesExactly(buf: seq<Byte>, min: nat, chunks: seq<seq<Byte>>, chunk: seq<Byte>)
    requires Config(buf, min) && Run(Start(buf, min), chunks).Some?
    ensures var l := Run(Start(buf, min), chunks).value.rx.linear;
            Run(Start(buf, min), chunks + [chunk]).Some? <==>
              !Drain(Flatten(chunks)).bad && |chunk| <= |buf| - l.writePos
  {
    AlwaysRoom(buf, min, chunks);
    ChunkingIsInvisible(buf, min, chunks);
    assert (chunks + [chunk])[..|chunks|] == chunks;
  }

  lemma StepLeavesRoom(h: History, chunk: seq<Byte>)
    requires WellFormed(h.rx.linear) && Config(h.rx.linear.buf, h.rx.linear.minWritable) && Next(h, chunk).Some?
    ensures var rx := Next(h, chunk).value.rx;
            && |rx.linear.buf| == |h.rx.linear.buf| && rx.linear.minWritable == h.rx.linear.minWritable
            && (!rx.closed ==> |Readable(rx.linear)| < MAX_PACKET_SIZE
                               && rx.linear.minWritable <= WritableSize(rx.linear))
  {
    var l := Committed(Loaded(h.rx.linear, chunk), |chunk|);
    RestIsPartial(Readable(l));
    CompactKeepsReadable(AfterDrain(l));
  }

  lemma {:induction false} AlwaysRoom(buf: seq<Byte>, min: nat, chunks: seq<seq<Byte>>)
    requires Config(buf, min) && Run(Start(buf, min), chunks).Some?
    ensures var rx := Run(Start(buf, min), chunks).value.rx;
            && |rx.linear.buf| == |buf| && rx.linear.minWritable == min
            && (!rx.closed ==> |Readable(rx.linear)| < MAX_PACKET_SIZE && min <= WritableSize(rx.linear))
  {
    if chunks != [] {
      var init := chunks[..|chunks| - 1];
      AlwaysRoom(buf, min, init);
      StepLeavesRoom(Run(Start(buf, min), init).value, chunks[|chunks| - 1]);
    }
  }

  /** Receiving never stalls: short of an invalid header, every chunk of up to `min` bytes can be taken. */
  lemma {:induction false} NeverStalls(buf: seq<Byte>, min: nat, chunks: seq<seq<Byte>>)
    requires Config(buf, min)
    requires forall c :: c in chunks ==> |c| <= min
    requires !Drain(Flatten(chunks)).bad
    ensures Run(Start(buf, min), chunks).Some? && !Run(Start(buf, min), chunks).value.rx.closed
  {
    if chunks != [] {
      var init, last := chunks[..|chunks| - 1], chunks[|chunks| - 1];
      FlattenLast(chunks);
      DrainAppend(Flatten(init), last);
      NeverStalls(buf, min, init);
      AlwaysRoom(buf, min, init);
    }
    ChunkingIsInvisible(buf, min, chunks);
  }

  // ----- Moving -----

  function LastMoveEnd(moves: seq<Move>): int {
    if moves == [] then 0 else moves[|moves| - 1].to
  }

  /** The memmoves moved disjoint parts of the stream, in stream order. */
  predicate MovesDisjoint(moves: seq<Move>, received: nat) {
    && (forall i :: 0 <= i < |moves| ==> 0 <= moves[i].from <= moves[i].to <= received)
    && (forall i, j :: 0 <= i < j < |moves| ==> moves[i].to <= moves[j].from)
  }

  function MovedBytes(moves: seq<Move>): int {
    if moves == [] then 0
    else MovedBytes(moves[..|moves| - 1]) + moves[|moves| - 1].to - moves[|moves| - 1].from
  }

  /** Bytes already moved either are gone, or lie in front of the buffer in a packet not yet complete. */
  predicate MovesSettled(h: History)
    requires WellFormed(h.rx.linear)
  {
    && MovesDisjoint(h.moves, h.received)
    && (LastMoveEnd(h.moves) + |Readable(h.rx.linear)| <= h.received || h.rx.linear.readPos == 0)
    && |Readable(h.rx.linear)| <= h.received
  }

  /** `drained` is the buffer `l` after receiving `chunk` and taking out what was complete. */
  predicate DrainedFrom(l: Linear, chunk: seq<Byte>, drained: Linear)
    requires WellFormed(l) && WellFormed(drained)
  {
    && |drained.buf| == |l.buf| && drained.minWritable == l.minWritable
    && drained.writePos == l.writePos + |chunk|
    && Readable(drained) == Drain(Readable(l) + chunk).rest
  }

  /** After a drain the bytes moved up to offset `e` are gone, or nothing was taken and nothing need move. */
  lemma DrainSettles(l: Linear, chunk: seq<Byte>, drained: Linear, e: int, received: nat)
    requires WellFormed(l) && WellFormed(drained) && DrainedFrom(l, chunk, drained) && Config(l.buf, l.minWritable)
    requires |Readable(l)| <= received && e <= received
    requires e + |Readable(l)| <= received || l.readPos == 0
    requires Drain(Readable(l)) == Drained([], Readable(l), false)
    ensures |Readable(drained)| <= received + |chunk|
    ensures || e + |Readable(drained)| <= received + |chunk|
            || (drained.readPos == 0 && (Drain(Readable(l) + chunk).bad || !MustMove(drained)))
  {
    CompletionEatsThePart(Readable(l), chunk);
    RestIsPartial(Readable(l) + chunk);
  }

  /** One receive in terms of the drained buffer: what is readable, where it starts, and whether it moved. */
  lemma {:induction false} NextShape(h: History, chunk: seq<Byte>, next: History) returns (drained: Linear, moved: bool)
    requires WellFormed(h.rx.linear) && Next(h, chunk) == Some(next)
    ensures WellFormed(drained) && DrainedFrom(h.rx.linear, chunk, drained)
    ensures moved <==> !Drain(Readable(h.rx.linear) + chunk).bad && MustMove(drained)
    ensures next.rx.closed <==> Drain(Readable(h.rx.linear) + chunk).bad
    ensures next.received == h.received + |chunk|
    ensures Readable(next.rx.linear) == Readable(drained)
    ensures next.rx.linear.readPos == 0 || (!moved && next.rx.linear.readPos == drained.readPos)
    ensures next.rx.linear.writePos
         == if Readable(drained) == [] then 0 else if moved then |Readable(drained)| else drained.writePos
    ensures next.moves == if moved then h.moves + [Move(next.received - |Readable(drained)|, next.received)]
                          else h.moves
  {
    LoadCommitAppends(h.rx.linear, chunk);
    drained := AfterDrain(Committed(Loaded(h.rx.linear, chunk), |chunk|));
    moved := !next.rx.closed && MustMove(drained);
    CompactKeepsReadable(drained);
    RestIsPartial(Readable(h.rx.linear) + chunk);
  }

  /** A move is logged where bytes are left unread with less than the minimum free behind them, and is where they go. */
  predicate MoveIsLogged(l: Linear, chunk: seq<Byte>, moves: seq<Move>, next: History)
    requires WellFormed(next.rx.linear)
  {
    var unread := Readable(next.rx.linear);
    var moved := !next.rx.closed && unread != [] && |l.buf| - (l.writePos + |chunk|) < l.minWritable;
    && next.moves == (if moved then moves + [Move(next.received - |unread|, next.received)] else moves)
    && next.rx.linear.writePos == if unread == [] then 0 else if moved then |unread| else l.writePos + |chunk|
  }

  /** The log is true to the buffer: a receive moves what it leaves unread, and logs that, exactly when it has to. */
  lemma {:induction false} MovesAreLogged(h: History, chunk: seq<Byte>, next: History)
    requires WellFormed(h.rx.linear) && Next(h, chunk) == Some(next)
    ensures MoveIsLogged(h.rx.linear, chunk, h.moves, next)
  {
    var drained, moved := NextShape(h, chunk, next);
    MustMoveExactly(drained);
  }

  /** One receive logged at most one move, and one of bytes past offset `e` only. */
  predicate MoveInOrder(h: History, next: History, e: int)
    requires WellFormed(next.rx.linear)
  {
    var readable := |Readable(next.rx.linear)|;
    && readable <= next.received && h.received <= next.received
    && (|| (next.moves == h.moves && (e + readable <= next.received || next.rx.linear.readPos == 0))
        || (&& next.moves == h.moves + [Move(next.received - readable, next.received)]
            && e + readable <= next.received && next.rx.linear.readPos == 0))
  }

  lemma SettledStep(h: History, next: History)
    requires WellFormed(h.rx.linear) && WellFormed(next.rx.linear) && MovesSettled(h)
    requires MoveInOrder(h, next, LastMoveEnd(h.moves))
    ensures MovesSettled(next)
  {
    if next.moves != h.moves {
      MovesExtend(h.moves, h.received, Move(next.received - |Readable(next.rx.linear)|, next.received));
    }
  }

  lemma ReceiveMovesInOrder(h: History, chunk: seq<Byte>, next: History, e: int)
    requires WellFormed(h.rx.linear) && Config(h.rx.linear.buf, h.rx.linear.minWritable)
    requires Next(h, chunk) == Some(next)
    requires |Readable(h.rx.linear)| <= h.received && e <= h.received
    requires e + |Readable(h.rx.linear)| <= h.received || h.rx.linear.readPos == 0
    requires Drain(Readable(h.rx.linear)) == Drained([], Readable(h.rx.linear), false)
    ensures MoveInOrder(h, next, e)
  {
    var drained, moved := NextShape(h, chunk, next);
    DrainSettles(h.rx.linear, chunk, drained, e, h.received);
  }

  lemma StepMovesFreshBytes(h: History, chunk: seq<Byte>, next: History)
    requires WellFormed(h.rx.linear) && Config(h.rx.linear.buf, h.rx.linear.minWritable)
    requires MovesSettled(h) && Next(h, chunk) == Some(next)
    requires Drain(Readable(h.rx.linear)) == Drained([], Readable(h.rx.linear), false)
    ensures MovesSettled(next)
  {
    LastEndIsReceived(h.moves, h.received);
    ReceiveMovesInOrder(h, chunk, next, LastMoveEnd(h.moves));
    SettledStep(h, next);
  }

  lemma LastEndIsReceived(moves: seq<Move>, received: nat)
    requires MovesDisjoint(moves, received)
    ensures LastMoveEnd(moves) <= received
  {
  }

  lemma MovesExtend(moves: seq<Move>, received: nat, m: Move)
    requires MovesDisjoint(moves, received) && received <= m.to && 0 <= m.from
    requires LastMoveEnd(moves) <= m.from <= m.to
    ensures MovesDisjoint(moves + [m], m.to)
  {
  }

  lemma {:induction false} RunMovesFreshBytes(buf: seq<Byte>, min: nat, chunks: seq<seq<Byte>>)
    requires Config(buf, min) && Run(Start(buf, min), chunks).Some?
    ensures MovesSettled(Run(Start(buf, min), chunks).value)
  {
    if chunks != [] {
      var init := chunks[..|chunks| - 1];
      RunMovesFreshBytes(buf, min, init);
      AlwaysRoom(buf, min, init);
      ChunkingIsInvisible(buf, min, init);
      RestIsPartial(Flatten(init));
      StepMovesFreshBytes(Run(Start(buf, min), init).value, chunks[|chunks| - 1], Run(Start(buf, min), chunks).value);
    }
  }

  lemma {:induction false} DisjointMovesAreFew(moves: seq<Move>, received: nat)
    requires MovesDisjoint(moves, received)
    ensures 0 <= MovedBytes(moves) <= LastMoveEnd(moves) <= received
  {
    if moves != [] {
      var last := |moves| - 1;
      DisjointMovesAreFew(moves[..last], received);
      assert last > 0 ==> moves[last - 1].to <= moves[last].from;
    }
  }

  /** Each received byte is moved at most once, so no more bytes are moved than received. */
  lemma EachByteMovedAtMostOnce(buf: seq<Byte>, min: nat, chunks: seq<seq<Byte>>)
    requires Config(buf, min) && Run(Start(buf, min), chunks).Some?
    ensures var h := Run(Start(buf, min), chunks).value;
            && h.received == |Flatten(chunks)|
            && MovesDisjoint(h.moves, h.received)
            && MovedBytes(h.moves) <= h.received
  {
    ReceivedIsLength(buf, min, chunks);
    RunMovesFreshBytes(buf, min, chunks);
    var h := Run(Start(buf, min), chunks).value;
    DisjointMovesAreFew(h.moves, h.received);
  }

  /** The driver as a mutable object, in the order the receive loop prescribes. */
  class PacketReceiver {
    const recvBuffer: RecvBuffer
    var packets: seq<Packet>
    var isClosed: bool

    ghost function View(): Rx
      reads this, recvBuffer, recvBuffer.buffer
    {
      Rx(recvBuffer.View(), packets, isClosed)
    }

    ghost predicate Valid()
      reads this, recvBuffer, recvBuffer.buffer
    {
      recvBuffer.Valid()
    }

    constructor (capacity: nat, minWritableSize: nat)
      requires 0 < minWritableSize <= capacity / 2
      ensures Valid() && fresh(recvBuffer) && fresh(recvBuffer.buffer)
      ensures View() == Start(recvBuffer.buffer[..], minWritableSize).rx && recvBuffer.buffer.Length == capacity
    {
      recvBuffer := new RecvBuffer(capacity, minWritableSize);
      packets := [];
      isClosed := false;
    }

    /** An error closes; otherwise commit, drain, and either close on an invalid header or compact. */
    method CompleteReceive(errorCode: bool, recvSize: nat)
      requires Valid() && !isClosed && recvSize <= recvBuffer.GetWritableSize()
      modifies this, recvBuffer, recvBuffer.buffer
      ensures Valid()
      ensures View() == if errorCode then old(View()).(closed := true) else Complete(old(View()), recvSize)
    {
      if errorCode {
        isClosed := true;
        return;
      }
      recvBuffer.CommitWrite(recvSize);
      var ok := ProcessRecvPackets();
      if !ok {
        isClosed := true;
        return;
      }
      recvBuffer.Compact();
    }

    /** Takes every complete packet out; false if a header turned out invalid. */
    method ProcessRecvPackets() returns (ok: bool)
      requires Valid()
      modifies this`packets, recvBuffer
      ensures Valid() && recvBuffer.View() == AfterDrain(old(recvBuffer.View()))
      ensures var d := Drain(old(Readable(recvBuffer.View())));
              packets == old(packets) + d.packets && ok == !d.bad
    {
      ghost var l := recvBuffer.View();
      ghost var all := Readable(l);
      ghost var taken: seq<Packet> := [];
      TakeNone(all);
      while true
        invariant Valid()
        invariant Advanced(l, recvBuffer.View())
        invariant packets == old(packets) + taken
        invariant PartWay(all, taken, Readable(recvBuffer.View()))
        decreases recvBuffer.GetReadableSize()
      {
        ghost var left := Readable(recvBuffer.View());
        var packet, bad := DeserializePacket();
        if packet.None? {
          TakeLast(all, taken, left);
          AdvancedToRest(l, recvBuffer.View());
          return !bad;
        }
        TakeOne(all, taken, left);
        Associative(old(packets), taken, [packet.value]);
        packets := packets + [packet.value];
        taken := taken + [packet.value];
      }
    }

    /** Takes the front packet out if it is complete; `bad` reports an invalid header. */
    method DeserializePacket() returns (packet: Option<Packet>, bad: bool)
      requires Valid()
      modifies recvBuffer
      ensures Valid()
      ensures var all := old(Readable(recvBuffer.View()));
              if |all| < 4 then !bad && packet == None
              else
                var size, id := all[0] as int + 256 * all[1] as int, all[2] as int + 256 * all[3] as int;
                && bad == !(4 <= size < 8192 && 0 < id)
                && packet == if bad || |all| < size then None else Some(Packet(id, all[4..size]))
      ensures var all := old(Readable(recvBuffer.View()));
              && bad == BadFront(all)
              && packet == (if PacketFront(all) then Some(FrontPacket(all)) else None)
              && Advanced(old(recvBuffer.View()), recvBuffer.View())
              && Readable(recvBuffer.View()) == if PacketFront(all) then all[ParsePacketHeader(all).size..] else all
    {
      var readable := recvBuffer.GetReadableSpan();
      if |readable| < HEADER_SIZE {
        return None, false;
      }
      var header := ParsePacketHeader(readable);
      if !header.IsValid() {
        return None, true;
      }
      if |readable| < header.size {
        return None, false;
      }
      recvBuffer.Consume(header.size);
      return Some(Packet(header.id, readable[HEADER_SIZE..header.size])), false;
    }
  }
}
