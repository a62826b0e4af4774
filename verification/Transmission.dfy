/** A whole application message: cut into packets, sent, retransmitted and checked on arrival. */
module Transmission {
  import opened Memory
  import opened OnesComplement
  import opened Accumulator
  import opened ChecksumAlgebra
  import opened ScatterGather
  import opened PacketChecksum

  /** A packet as it is kept for retransmission: its header with the checksum field still zero, its
      payload, the checksum that was sent and the payload's unfolded sum. */
  datatype Packet = Packet(header: seq<byte>, payload: seq<byte>, checksum: uint16, odata: uint32)

  /** The checksum is the one-shot value of the packet, never the "no checksum" zero, and the
      unfolded sum stands for the payload. */
  ghost predicate Intact(big: bool, p: Packet)
  {
    && |p.header| + |p.payload| < 0x1_0000
    && p.checksum == FinalSum(Checksum(big, p.header + p.payload)) != 0
    && Ones(p.odata) == Checksum(big, p.payload) && p.odata <= 0xffff * |p.payload|
  }

  function Payloads(packets: seq<Packet>): seq<byte>
  {
    if packets == [] then [] else Payloads(packets[..|packets| - 1]) + packets[|packets| - 1].payload
  }

  /** Packet k of a cut of n bytes into full packets and one last one that may be shorter. */
  ghost predicate Piece(big: bool, header: nat -> seq<byte>, packet: Packet, k: nat, maxTsdu: nat, n: nat)
  {
    && Intact(big, packet) && packet.header == header(k)
    && k * maxTsdu < n
    && |packet.payload| == if (k + 1) * maxTsdu <= n then maxTsdu else n - k * maxTsdu
  }

  /** The packets are pieces of the data, in order and without a gap. */
  ghost predicate Cut(big: bool, header: nat -> seq<byte>, packets: seq<Packet>, maxTsdu: nat, data: seq<byte>,
                      sent: nat)
  {
    && sent <= |data| && Payloads(packets) == data[..sent]
    && (sent < |data| ==> sent == |packets| * maxTsdu)
    && forall k :: 0 <= k < |packets| ==> Piece(big, header, packets[k], k, maxTsdu, |data|)
  }

  lemma {:induction false} AnotherPacket(big: bool, header: nat -> seq<byte>, packets: seq<Packet>, packet: Packet,
                                         maxTsdu: nat, data: seq<byte>, sent: nat, n: nat)
    requires 0 < maxTsdu && sent < |data| && Cut(big, header, packets, maxTsdu, data, sent)
    requires n == if maxTsdu < |data| - sent then maxTsdu else |data| - sent
    requires Intact(big, packet) && packet.header == header(|packets|) && packet.payload == data[sent..sent + n]
    ensures Cut(big, header, packets + [packet], maxTsdu, data, sent + n)
  {
    assert (packets + [packet])[..|packets|] == packets;
    assert (|packets| + 1) * maxTsdu == |packets| * maxTsdu + maxTsdu;
  }

  /** One turn of the loop of sendv: a buffer for the packet, filled from where the vector has been
      sent up to. */
  method SendOne(engine: Engine, copyEngine: CopyEngine, big: bool, width: Width,
                 header: seq<byte>, headerAddr: nat, vector: seq<seq<byte>>, addrs: seq<nat>,
                 index: nat, offset: nat, sent: nat, tsduLength: nat, payloadAddr: nat)
    returns (packet: Option<Packet>, index': nat, offset': nat)
    requires (engine.Vector() || copyEngine.Vector()) ==> !big
    requires |addrs| == |vector| && index <= |vector| && (index < |vector| ==> offset <= |vector[index]|)
    requires sent == Position(vector, index, offset) && sent < sent + tsduLength <= |Flat(vector)|
    requires |header| + tsduLength < 0x1_0000
    ensures packet.Some? ==>
              && packet.value.header == header && Intact(big, packet.value)
              && packet.value.payload == Flat(vector)[sent..sent + tsduLength]
              && index' <= |vector| && (index' < |vector| ==> offset' <= |vector[index']|)
              && Position(vector, index', offset') == sent + tsduLength
    ensures packet.None? <==> PacketFaults(copyEngine, vector, addrs, sent, tsduLength, payloadAddr)
    ensures !copyEngine.Vector() ==> packet.Some?
  {
    assert vector[..|vector|] == vector;
    var buffer := new byte[tsduLength];
    ghost var tsdu, was := Flat(vector)[sent..][..tsduLength], buffer[..];
    assert tsdu + was[tsduLength..] == tsdu == Flat(vector)[sent..sent + tsduLength];
    var checksum, odata;
    checksum, odata, index', offset' := SendFragment(engine, copyEngine, big, width, header, headerAddr, vector, addrs,
                                                     index, offset, tsduLength, buffer, payloadAddr);
    packet := None;
    if checksum.Some? {
      assert buffer[..] == tsdu;
      packet := Some(Packet(header, buffer[..], checksum.value, odata));
    }
  }

  /** Filling packet k, with its buffer at bufferAddr, faults. */
  ghost predicate Unsendable(copyEngine: CopyEngine, vector: seq<seq<byte>>, addrs: seq<nat>, maxTsdu: nat, k: nat,
                             bufferAddr: nat)
    requires |vector| == |addrs|
  {
    var start, total := k * maxTsdu, |Flat(vector)|;
    && start < total
    && PacketFaults(copyEngine, vector, addrs, start, if maxTsdu < total - start then maxTsdu else total - start,
                    bufferAddr)
  }

  /** None of the first n packets faults. */
  ghost predicate Sendable(copyEngine: CopyEngine, vector: seq<seq<byte>>, addrs: seq<nat>, maxTsdu: nat,
                           bufferAddr: nat -> nat, n: nat)
    requires |vector| == |addrs|
  {
    forall k: nat | k < n :: !Unsendable(copyEngine, vector, addrs, maxTsdu, k, bufferAddr(k))
  }

  lemma {:induction false} OneMoreSendable(copyEngine: CopyEngine, vector: seq<seq<byte>>, addrs: seq<nat>,
                                           maxTsdu: nat, bufferAddr: nat -> nat, sent: nat, tsduLength: nat, n: nat)
    requires |vector| == |addrs| && sent == n * maxTsdu < |Flat(vector)|
    requires tsduLength == if maxTsdu < |Flat(vector)| - sent then maxTsdu else |Flat(vector)| - sent
    requires Sendable(copyEngine, vector, addrs, maxTsdu, bufferAddr, n)
    ensures PacketFaults(copyEngine, vector, addrs, sent, tsduLength, bufferAddr(n))
       <==> Unsendable(copyEngine, vector, addrs, maxTsdu, n, bufferAddr(n))
    ensures Sendable(copyEngine, vector, addrs, maxTsdu, bufferAddr, n + 1)
       <==> !Unsendable(copyEngine, vector, addrs, maxTsdu, n, bufferAddr(n))
    ensures sent + tsduLength <= (n + 1) * maxTsdu
  {
    assert (n + 1) * maxTsdu == n * maxTsdu + maxTsdu;
  }

  /** One turn of the loop: the next packet's share of what is left. */
  method SendNext(engine: Engine, copyEngine: CopyEngine, big: bool, width: Width,
                  header: nat -> seq<byte>, headerLength: nat, addr: nat -> nat, bufferAddr: nat -> nat,
                  vector: seq<seq<byte>>, addrs: seq<nat>, maxTsdu: nat,
                  packets: seq<Packet>, index: nat, offset: nat, sent: nat)
    returns (packet: Option<Packet>, index': nat, offset': nat, sent': nat)
    requires (engine.Vector() || copyEngine.Vector()) ==> !big
    requires |addrs| == |vector| && 0 < maxTsdu && headerLength + maxTsdu < 0x1_0000
    requires forall k :: |header(k)| == headerLength
    requires index <= |vector| && (index < |vector| ==> offset <= |vector[index]|)
    requires sent == Position(vector, index, offset) < |Flat(vector)|
    requires Cut(big, header, packets, maxTsdu, Flat(vector), sent)
    requires Sendable(copyEngine, vector, addrs, maxTsdu, bufferAddr, |packets|)
    ensures packet.None? <==> Unsendable(copyEngine, vector, addrs, maxTsdu, |packets|, bufferAddr(|packets|))
    ensures packet.None? ==> Cut(big, header, packets, maxTsdu, Flat(vector), |Payloads(packets)|)
    ensures packet.Some? ==>
              && Cut(big, header, packets + [packet.value], maxTsdu, Flat(vector), sent')
              && Sendable(copyEngine, vector, addrs, maxTsdu, bufferAddr, |packets| + 1)
              && (sent' == |Flat(vector)| ==> sent' <= (|packets| + 1) * maxTsdu)
              && index' <= |vector| && (index' < |vector| ==> offset' <= |vector[index']|)
              && sent < sent' == Position(vector, index', offset')
    ensures !copyEngine.Vector() ==> packet.Some?
  {
    var left, n := |Flat(vector)| - sent, |packets|;
    var tsduLength: nat := if maxTsdu < left then maxTsdu else left;
    OneMoreSendable(copyEngine, vector, addrs, maxTsdu, bufferAddr, sent, tsduLength, n);
    packet, index', offset' := SendOne(engine, copyEngine, big, width, header(n), addr(n), vector, addrs,
                                       index, offset, sent, tsduLength, bufferAddr(n));
    sent' := sent + tsduLength;
    assert |Payloads(packets)| == sent;
    if packet.Some? {
      AnotherPacket(big, header, packets, packet.value, maxTsdu, Flat(vector), sent, tsduLength);
    }
  }

  /** sendv for a message of more than one packet. `header`, `addr`
      and `bufferAddr` give each packet's header and where it and the payload's buffer are. */
  method SendApdu(engine: Engine, copyEngine: CopyEngine, big: bool, width: Width,
                  header: nat -> seq<byte>, headerLength: nat, addr: nat -> nat, bufferAddr: nat -> nat,
                  vector: seq<seq<byte>>, addrs: seq<nat>, maxTsdu: nat)
    returns (ok: bool, packets: seq<Packet>)
    requires (engine.Vector() || copyEngine.Vector()) ==> !big
    requires |addrs| == |vector| && 0 < maxTsdu && headerLength + maxTsdu < 0x1_0000
    requires forall k :: |header(k)| == headerLength
    ensures ok ==> Cut(big, header, packets, maxTsdu, Flat(vector), |Flat(vector)|)
    ensures ok ==> Payloads(packets) == Flat(vector)
    ensures ok <==> forall k: nat :: !Unsendable(copyEngine, vector, addrs, maxTsdu, k, bufferAddr(k))
    ensures !ok ==> Unsendable(copyEngine, vector, addrs, maxTsdu, |packets|, bufferAddr(|packets|))
                    && Cut(big, header, packets, maxTsdu, Flat(vector), |Payloads(packets)|)
    ensures !copyEngine.Vector() ==> ok
  {
    packets, ok := [], true;
    var apduLength := |Flat(vector)|;
    var index: nat, offset: nat, sent: nat := 0, 0, 0;
    while sent < apduLength
      invariant ok && Cut(big, header, packets, maxTsdu, Flat(vector), sent)
      invariant index <= |vector| && (index < |vector| ==> offset <= |vector[index]|)
      invariant sent == Position(vector, index, offset) && (sent == apduLength ==> sent <= |packets| * maxTsdu)
      invariant Sendable(copyEngine, vector, addrs, maxTsdu, bufferAddr, |packets|)
    {
      var packet := None;
      packet, index, offset, sent := SendNext(engine, copyEngine, big, width, header, headerLength, addr, bufferAddr,
                                              vector, addrs, maxTsdu, packets, index, offset, sent);
      if packet.None? {
        ok := false;
        return;
      }
      packets := packets + [packet.value];
    }
    assert Flat(vector)[..sent] == Flat(vector);
    NoMorePackets(copyEngine, vector, addrs, maxTsdu, bufferAddr, |packets|);
  }

  lemma {:induction false} NoMorePackets(copyEngine: CopyEngine, vector: seq<seq<byte>>, addrs: seq<nat>, maxTsdu: nat,
                                         bufferAddr: nat -> nat, n: nat)
    requires |vector| == |addrs| && |Flat(vector)| <= n * maxTsdu
    requires Sendable(copyEngine, vector, addrs, maxTsdu, bufferAddr, n)
    ensures forall k: nat :: !Unsendable(copyEngine, vector, addrs, maxTsdu, k, bufferAddr(k))
  {
    forall k: nat | n <= k
      ensures !Unsendable(copyEngine, vector, addrs, maxTsdu, k, bufferAddr(k))
    {
      Multiples(n, k, maxTsdu);
    }
  }

  lemma Multiples(a: nat, b: nat, c: nat)
    requires a <= b
    ensures a * c <= b * c
  {
  }

  // ---- retransmission ----

  /** send_rdata: a changed header is summed again, the payload is not. */
  method Retransmit(engine: Engine, big: bool, width: Width, packet: Packet, header: seq<byte>, addr: nat)
    returns (packet': Packet)
    requires Intact(big, packet) && |header| == |packet.header| && (engine.Vector() ==> !big)
    ensures Intact(big, packet') && packet' == packet.(header := header, checksum := packet'.checksum)
  {
    var unfoldedHeader := Partial(engine, big, width, header, addr, 0);
    var checksum := SealFragment(big, header, unfoldedHeader, packet.odata, packet.payload);
    packet' := packet.(header := header, checksum := checksum.value);
  }

  // ---- arrival ----

  /** The bytes on the wire. */
  function OnTheWire(big: bool, packet: Packet): seq<byte>
    requires |packet.header| >= HEADER_SIZE
  {
    Overwrite(packet.header + packet.payload, CHECKSUM_AT, Bytes16(big, packet.checksum))
  }

  /** A host of either byte order accepts an intact packet from a host of either byte order. */
  lemma {:induction false} IntactIsAccepted(big: bool, receiver: bool, packet: Packet)
    requires Intact(big, packet) && |packet.header| >= 16 && packet.header[6] == 0 && packet.header[7] == 0
    ensures Accepts(receiver, OnTheWire(big, packet))
  {
    var p := packet.header + packet.payload;
    assert p[6] == 0 && p[7] == 0;
    assert Zeroed(p) == p;
    SentIsAccepted(big, receiver, p);
  }
}
