/** Packet headers and the framing of a byte stream into packets. */
module Packets {
  import opened Basics

  const HEADER_SIZE: nat := 4
  const MAX_PACKET_SIZE: nat := 1024 * 8

  /** Both fields are 16 bits wide, stored low byte first, without padding. */
  datatype PacketHeader = PacketHeader(size: nat, id: nat) {
    predicate IsValid() {
      0 < id && 0 < size && HEADER_SIZE <= size && size < MAX_PACKET_SIZE
    }
  }

  /** A whole packet; the body is opaque here. */
  datatype Packet = Packet(id: nat, body: seq<Byte>)

  /** Packets the protocol can carry: a 16-bit id other than 0, and a total size below the maximum. */
  predicate Sendable(p: Packet) {
    0 < p.id < 0x1_0000 && HEADER_SIZE + |p.body| < MAX_PACKET_SIZE
  }

  function EncodeWord(n: nat): seq<Byte>
    requires n < 0x1_0000
  {
    [n % 0x100, n / 0x100]
  }

  function Encode(p: Packet): (bytes: seq<Byte>)
    requires Sendable(p)
    ensures |bytes| == HEADER_SIZE + |p.body|
  {
    EncodeWord(HEADER_SIZE + |p.body|) + EncodeWord(p.id) + p.body
  }

  function EncodeAll(ps: seq<Packet>): seq<Byte>
    requires forall p :: p in ps ==> Sendable(p)
  {
    if ps == [] then [] else Encode(ps[0]) + EncodeAll(ps[1..])
  }

  function DecodeWord(lo: Byte, hi: Byte): nat {
    lo + 0x100 * hi
  }

  /** All zero when fewer than four bytes are there; the real header even when the body is not. */
  function ParsePacketHeader(readable: seq<Byte>): PacketHeader {
    if |readable| < HEADER_SIZE then PacketHeader(0, 0)
    else PacketHeader(DecodeWord(readable[0], readable[1]), DecodeWord(readable[2], readable[3]))
  }

  /** What draining a stream yields: the packets, the bytes left over, and whether a header was invalid. */
  datatype Drained = Drained(packets: seq<Packet>, rest: seq<Byte>, bad: bool)

  /** The front of the stream is an invalid header. */
  predicate BadFront(bytes: seq<Byte>) {
    HEADER_SIZE <= |bytes| && !ParsePacketHeader(bytes).IsValid()
  }

  /** The front of the stream is a complete packet. */
  predicate PacketFront(bytes: seq<Byte>) {
    HEADER_SIZE <= |bytes| && ParsePacketHeader(bytes).IsValid() && ParsePacketHeader(bytes).size <= |bytes|
  }

  function FrontPacket(bytes: seq<Byte>): Packet
    requires PacketFront(bytes)
  {
    var h := ParsePacketHeader(bytes);
    Packet(h.id, bytes[HEADER_SIZE..h.size])
  }

  /** The framing rule: while there is a header, check it, then wait for the body, then emit. */
  function Drain(bytes: seq<Byte>): Drained
    decreases |bytes|
  {
    if BadFront(bytes) then Drained([], bytes, true)
    else if PacketFront(bytes) then
      var d := Drain(bytes[ParsePacketHeader(bytes).size..]);
      Drained([FrontPacket(bytes)] + d.packets, d.rest, d.bad)
    else Drained([], bytes, false)
  }

  /** Having taken some packets off `all`, `left` is what remains to be drained. */
  predicate PartWay(all: seq<Byte>, taken: seq<Packet>, left: seq<Byte>) {
    Drain(all) == Drained(taken + Drain(left).packets, Drain(left).rest, Drain(left).bad)
  }

  lemma TakeNone(all: seq<Byte>)
    ensures PartWay(all, [], all)
  {
    assert [] + Drain(all).packets == Drain(all).packets;
  }

  lemma TakeOne(all: seq<Byte>, taken: seq<Packet>, left: seq<Byte>)
    requires PacketFront(left) && PartWay(all, taken, left)
    ensures PartWay(all, taken + [FrontPacket(left)], left[ParsePacketHeader(left).size..])
  {
    Associative(taken, [FrontPacket(left)], Drain(left[ParsePacketHeader(left).size..]).packets);
  }

  lemma TakeLast(all: seq<Byte>, taken: seq<Packet>, left: seq<Byte>)
    requires !PacketFront(left) && PartWay(all, taken, left)
    ensures Drain(all) == Drained(taken, left, BadFront(left))
  {
    assert taken + [] == taken;
  }

  // ----- Round trips -----

  lemma WordRoundTrip(n: nat)
    requires n < 0x1_0000
    ensures DecodeWord(EncodeWord(n)[0], EncodeWord(n)[1]) == n
  {
  }

  lemma WordIsFaithful(lo: Byte, hi: Byte)
    ensures EncodeWord(DecodeWord(lo, hi)) == [lo, hi]
  {
  }

  /** An encoded packet is recognised at the front of any stream. */
  lemma EncodedFront(p: Packet, rest: seq<Byte>)
    requires Sendable(p)
    ensures PacketFront(Encode(p) + rest) && !BadFront(Encode(p) + rest)
    ensures ParsePacketHeader(Encode(p) + rest).size == |Encode(p)|
    ensures FrontPacket(Encode(p) + rest) == p
  {
    var size := HEADER_SIZE + |p.body|;
    WordRoundTrip(size);
    WordRoundTrip(p.id);
    var s := Encode(p) + rest;
    assert s[0] == EncodeWord(size)[0] && s[1] == EncodeWord(size)[1];
    assert s[2] == EncodeWord(p.id)[0] && s[3] == EncodeWord(p.id)[1];
    assert s[HEADER_SIZE..size] == p.body;
  }

  /** A recognised packet encodes back to the very bytes it came from. */
  lemma FrontIsFaithful(bytes: seq<Byte>)
    requires PacketFront(bytes)
    ensures Sendable(FrontPacket(bytes))
    ensures Encode(FrontPacket(bytes)) == bytes[..ParsePacketHeader(bytes).size]
  {
    WordIsFaithful(bytes[0], bytes[1]);
    WordIsFaithful(bytes[2], bytes[3]);
    var size := ParsePacketHeader(bytes).size;
    assert bytes[..size] == [bytes[0], bytes[1]] + [bytes[2], bytes[3]] + bytes[HEADER_SIZE..size];
  }

  // ----- Draining -----

  lemma {:induction false} DrainedAreSendable(bytes: seq<Byte>)
    ensures forall p :: p in Drain(bytes).packets ==> Sendable(p)
    decreases |bytes|
  {
    if PacketFront(bytes) {
      FrontIsFaithful(bytes);
      DrainedAreSendable(bytes[ParsePacketHeader(bytes).size..]);
    }
  }

  lemma EncodeAllCons(p: Packet, ps: seq<Packet>)
    requires Sendable(p) && forall q :: q in ps ==> Sendable(q)
    ensures EncodeAll([p] + ps) == Encode(p) + EncodeAll(ps)
  {
    assert ([p] + ps)[1..] == ps;
  }

  /** Draining is lossless: the packets, encoded again, and the rest are the input. */
  lemma {:induction false} DrainIsLossless(bytes: seq<Byte>)
    ensures forall p :: p in Drain(bytes).packets ==> Sendable(p)
    ensures EncodeAll(Drain(bytes).packets) + Drain(bytes).rest == bytes
    decreases |bytes|
  {
    DrainedAreSendable(bytes);
    if PacketFront(bytes) {
      var size := ParsePacketHeader(bytes).size;
      FrontIsFaithful(bytes);
      DrainedAreSendable(bytes[size..]);
      DrainIsLossless(bytes[size..]);
      var d := Drain(bytes[size..]);
      EncodeAllCons(FrontPacket(bytes), d.packets);
      Associative(bytes[..size], EncodeAll(d.packets), d.rest);
      assert bytes[..size] + bytes[size..] == bytes;
    }
  }

  /** What is left over has no complete packet at its front; unless bad, it is shorter than a packet may be. */
  lemma {:induction false} RestIsPartial(bytes: seq<Byte>)
    ensures var d := Drain(bytes);
            && !PacketFront(d.rest)
            && (d.bad <==> BadFront(d.rest))
            && (!d.bad ==> |d.rest| < MAX_PACKET_SIZE && Drain(d.rest) == Drained([], d.rest, false))
            && |d.rest| <= |bytes|
    decreases |bytes|
  {
    if PacketFront(bytes) {
      RestIsPartial(bytes[ParsePacketHeader(bytes).size..]);
    }
  }

  /**
   On the raw bytes: a stream is rejected as soon as four bytes at the front of the leftover do not announce 4 to
   8191 bytes and an id, and otherwise the leftover is short of the size it announces.
   */
  lemma {:induction false} RejectedExactly(bytes: seq<Byte>)
    ensures var d := Drain(bytes);
            var rest := d.rest;
            && (|rest| < 4 ==> !d.bad)
            && (4 <= |rest| ==>
                  var size, id := rest[0] as int + 256 * rest[1] as int, rest[2] as int + 256 * rest[3] as int;
                  && (d.bad <==> !(4 <= size < 8192 && 0 < id))
                  && (!d.bad ==> |rest| < size))
    decreases |bytes|
  {
    if PacketFront(bytes) {
      RejectedExactly(bytes[ParsePacketHeader(bytes).size..]);
    }
  }

  /** Later bytes do not change the verdict on earlier ones. */
  lemma FrontIsStable(a: seq<Byte>, b: seq<Byte>)
    ensures HEADER_SIZE <= |a| ==> ParsePacketHeader(a + b) == ParsePacketHeader(a)
    ensures BadFront(a) ==> BadFront(a + b)
    ensures PacketFront(a) ==> PacketFront(a + b) && FrontPacket(a + b) == FrontPacket(a)
  {
    if PacketFront(a) {
      var size := ParsePacketHeader(a).size;
      assert (a + b)[HEADER_SIZE..size] == a[HEADER_SIZE..size];
    }
  }

  /** Draining in two goes is draining at once. */
  lemma {:induction false} DrainAppend(a: seq<Byte>, b: seq<Byte>)
    ensures var d := Drain(a);
            var e := Drain(d.rest + b);
            if d.bad then Drain(a + b) == Drained(d.packets, d.rest + b, true)
            else Drain(a + b) == Drained(d.packets + e.packets, e.rest, e.bad)
    decreases |a|
  {
    FrontIsStable(a, b);
    if PacketFront(a) {
      var size := ParsePacketHeader(a).size;
      assert (a + b)[size..] == a[size..] + b;
      DrainAppend(a[size..], b);
      var d := Drain(a[size..]);
      Associative([FrontPacket(a)], d.packets, Drain(d.rest + b).packets);
    } else if !BadFront(a) {
      assert Drain(a) == Drained([], a, false);
      assert [] + Drain(a + b).packets == Drain(a + b).packets;
    }
  }

  /** Draining inverts encoding, up to a partial packet at the end. */
  lemma {:induction false} DrainInvertsEncode(ps: seq<Packet>, rest: seq<Byte>)
    requires forall p :: p in ps ==> Sendable(p)
    requires !BadFront(rest) && !PacketFront(rest)
    ensures Drain(EncodeAll(ps) + rest) == Drained(ps, rest, false)
  {
    if ps == [] {
      assert EncodeAll(ps) + rest == rest;
    } else {
      var tail := EncodeAll(ps[1..]) + rest;
      Associative(Encode(ps[0]), EncodeAll(ps[1..]), rest);
      EncodedFront(ps[0], tail);
      assert (Encode(ps[0]) + tail)[|Encode(ps[0])|..] == tail;
      DrainInvertsEncode(ps[1..], rest);
    }
  }

  /** A proper prefix of an encoded packet is neither a packet nor an invalid header. */
  lemma ProperPrefixWaits(p: Packet, part: seq<Byte>)
    requires Sendable(p) && part < Encode(p)
    ensures !BadFront(part) && !PacketFront(part)
  {
    var more := Encode(p)[|part|..];
    assert part + more == Encode(p) && Encode(p) + [] == Encode(p);
    EncodedFront(p, []);
    FrontIsStable(part, more);
  }

  /**
   Any prefix of an encoded stream splits at a packet: some number of whole packets, then a proper prefix
   of the next one.
   */
  lemma {:induction false} PrefixSplits(ps: seq<Packet>, bytes: seq<Byte>) returns (j: nat, part: seq<Byte>)
    requires forall p :: p in ps ==> Sendable(p)
    requires bytes <= EncodeAll(ps)
    ensures j <= |ps| && bytes == EncodeAll(ps[..j]) + part
    ensures if j == |ps| then part == [] else part < Encode(ps[j])
  {
    if ps == [] {
      return 0, [];
    }
    var e := Encode(ps[0]);
    if |bytes| < |e| {
      assert bytes == (e + EncodeAll(ps[1..]))[..|bytes|] == e[..|bytes|];
      return 0, bytes;
    }
    assert bytes[..|e|] == (e + EncodeAll(ps[1..]))[..|e|] == e;
    assert bytes[|e|..] == EncodeAll(ps)[..|bytes|][|e|..] == EncodeAll(ps[1..])[..|bytes| - |e|];
    j, part := PrefixSplits(ps[1..], bytes[|e|..]);
    assert ps[..j + 1][0] == ps[0] && ps[..j + 1][1..] == ps[1..][..j];
    assert EncodeAll(ps[..j + 1]) == e + EncodeAll(ps[1..][..j]);
    Associative(e, EncodeAll(ps[1..][..j]), part);
    assert bytes == e + bytes[|e|..];
    j := j + 1;
  }

  lemma {:induction false} EncodeAllSplits(ps: seq<Packet>, j: nat)
    requires j <= |ps| && forall p :: p in ps ==> Sendable(p)
    ensures EncodeAll(ps) == EncodeAll(ps[..j]) + EncodeAll(ps[j..])
  {
    if j == 0 {
      assert ps[..0] == [] && ps[0..] == ps;
    } else {
      EncodeAllSplits(ps[1..], j - 1);
      assert ps[..j][1..] == ps[1..][..j - 1] && ps[1..][j - 1..] == ps[j..];
      Associative(Encode(ps[0]), EncodeAll(ps[..j][1..]), EncodeAll(ps[j..]));
    }
  }

  lemma {:induction false} RestIsSuffix(bytes: seq<Byte>)
    ensures |Drain(bytes).rest| <= |bytes|
    ensures bytes[|bytes| - |Drain(bytes).rest|..] == Drain(bytes).rest
    decreases |bytes|
  {
    if PacketFront(bytes) {
      RestIsSuffix(bytes[ParsePacketHeader(bytes).size..]);
    }
  }

  /** Once a partial packet is completed, the whole part goes with it. */
  lemma CompletionEatsThePart(part: seq<Byte>, more: seq<Byte>)
    requires Drain(part) == Drained([], part, false)
    ensures Drain(part + more).rest == part + more || |Drain(part + more).rest| <= |more|
  {
    FrontIsStable(part, more);
    if PacketFront(part + more) {
      RestIsSuffix((part + more)[ParsePacketHeader(part + more).size..]);
    }
  }
}
