/** A receiver of IPv4 and UDP that shares nothing with the sender: it goes by the lengths, offsets and
    checks of RFC 791, RFC 768 and RFC 1071. */
module IpReader {
  import opened Words
  import opened Socket
  import opened DhcpMessage

  datatype Datagram = Datagram(source: U32, sourcePort: U16, destination: U32, destinationPort: U16,
                               payload: seq<Byte>)

  /** Length of the IP header, in bytes. */
  function HeaderLength(frame: seq<Byte>): nat
    requires |frame| >= 20
  {
    frame[0] % 0x10 * 4
  }

  function TotalLength(frame: seq<Byte>): nat
    requires |frame| >= 20
  {
    Load16(Big, frame[2..4])
  }

  /** A whole IPv4 datagram that carries UDP: version 4, lengths that fit, a header that sums to all ones,
      neither a fragment nor out of hops. What follows the total length is link padding. */
  predicate IsUdp(frame: seq<Byte>) {
    && |frame| >= 20 && frame[0] / 0x10 == 4
    && 20 <= HeaderLength(frame) && HeaderLength(frame) + 8 <= TotalLength(frame) <= |frame|
    && Accepts(frame[..HeaderLength(frame)])
    && Load16(Big, frame[6..8]) % 0x4000 == 0 && frame[8] > 0 && frame[9] == 17
  }

  /** The UDP header and what follows it, without padding. */
  function UdpPart(frame: seq<Byte>): seq<Byte>
    requires IsUdp(frame)
  {
    frame[HeaderLength(frame)..TotalLength(frame)]
  }

  function UdpLength(frame: seq<Byte>): nat
    requires IsUdp(frame)
  {
    Load16(Big, UdpPart(frame)[4..6])
  }

  function Read(frame: seq<Byte>): Option<Datagram> {
    if !IsUdp(frame) then None
    else
      var udp := UdpPart(frame);
      if UdpLength(frame) < 8 || UdpLength(frame) > |udp| then None
      else Some(Datagram(Load32(Big, frame[12..16]), Load16(Big, udp[..2]),
                         Load32(Big, frame[16..20]), Load16(Big, udp[2..4]), udp[8..UdpLength(frame)]))
  }

  /** The UDP check: none when its field is zero; otherwise addresses, protocol, UDP length, UDP header
      and data must sum to all ones. */
  predicate UdpVerified(frame: seq<Byte>)
    requires Read(frame).Some?
  {
    var udp := UdpPart(frame)[..UdpLength(frame)];
    udp[6..8] == [0, 0] || Accepts(frame[12..20] + [0, 17] + udp[4..6] + udp)
  }

  function Frame(e: Endian, source: U32, sourcePort: U16, destination: U32, destinationPort: U16,
                 payload: Payload): (frame: seq<Byte>)
    ensures |frame| == 28 + |payload|
  {
    IpHeader(e, source, destination, payload)
    + UdpHeader(e, source, sourcePort, destination, destinationPort, payload) + payload
  }

  lemma IpBytes(e: Endian, source: U32, destination: U32, payload: Payload)
    ensures var ip := IpHeader(e, source, destination, payload);
      && ip[0] == 0x45 && ip[2..4] == Store16(Big, 28 + |payload|) && ip[6..8] == [0, 0] && ip[8] == 64 && ip[9] == 17
      && ip[12..16] == Store32(Big, source) && ip[16..20] == Store32(Big, destination)
  {
    var ip, before := IpHeader(e, source, destination, payload), IpBefore(payload);
    assert ip[..10] == before && ip[12..] == Addresses(source, destination);
    assert before[2..4] == Store16(Big, 28 + |payload|);
    assert ip[12..16] == ip[12..][..4] && ip[16..20] == ip[12..][4..];
  }

  lemma UdpBytes(e: Endian, source: U32, sourcePort: U16, destination: U32, destinationPort: U16, payload: Payload)
    ensures var udp := UdpHeader(e, source, sourcePort, destination, destinationPort, payload);
      && udp[..2] == Store16(Big, sourcePort) && udp[2..4] == Store16(Big, destinationPort)
      && udp[4..6] == Store16(Big, 8 + |payload|)
  {
    var udp := UdpHeader(e, source, sourcePort, destination, destinationPort, payload);
    assert udp[..6] == UdpBefore(sourcePort, destinationPort, payload);
  }

  lemma FrameParts(e: Endian, source: U32, sourcePort: U16, destination: U32, destinationPort: U16,
                   payload: Payload, padding: seq<Byte>)
    ensures var frame := Frame(e, source, sourcePort, destination, destinationPort, payload) + padding;
      && IsUdp(frame) && HeaderLength(frame) == 20
      && UdpPart(frame) == UdpHeader(e, source, sourcePort, destination, destinationPort, payload) + payload
      && frame[12..16] == Store32(Big, source) && frame[16..20] == Store32(Big, destination)
  {
    var ip := IpHeader(e, source, destination, payload);
    var udp := UdpHeader(e, source, sourcePort, destination, destinationPort, payload);
    var frame := Frame(e, source, sourcePort, destination, destinationPort, payload) + padding;
    assert frame == ip + (udp + payload + padding);
    IpBytes(e, source, destination, payload);
    assert frame[..20] == ip;
    forall a, b | 0 <= a <= b <= 20 ensures frame[a..b] == ip[a..b] {
      SameSlice(frame, ip, a, b);
    }
    assert frame[0] == ip[0] && frame[8] == ip[8] && frame[9] == ip[9];
    StoreLoad16(Big, 28 + |payload|);
    IpHeaderAccepted(e, source, destination, payload);
    assert frame[6..8] == [0, 0] && Load16(Big, [0, 0]) == 0;
    assert frame[20..28 + |payload|] == udp + payload;
  }

  /** Every frame the raw socket sends is read back as it was meant, whatever padding the link adds. */
  lemma FrameIsRead(e: Endian, source: U32, sourcePort: U16, destination: U32, destinationPort: U16,
                    payload: Payload, padding: seq<Byte>)
    ensures Read(Frame(e, source, sourcePort, destination, destinationPort, payload) + padding) ==
            Some(Datagram(source, sourcePort, destination, destinationPort, payload))
  {
    var udp := UdpHeader(e, source, sourcePort, destination, destinationPort, payload);
    FrameParts(e, source, sourcePort, destination, destinationPort, payload, padding);
    UdpBytes(e, source, sourcePort, destination, destinationPort, payload);
    var part := udp + payload;
    assert part[..2] == udp[..2] && part[2..4] == udp[2..4] && part[4..6] == udp[4..6] && part[8..] == payload;
    StoreLoad16(Big, sourcePort);
    StoreLoad16(Big, destinationPort);
    StoreLoad16(Big, 8 + |payload|);
    StoreLoad32(Big, source);
    StoreLoad32(Big, destination);
    assert part[8..|part|] == payload;
  }

  /** What the reader sums for the UDP check of a sent frame. */
  lemma FrameCovered(e: Endian, source: U32, sourcePort: U16, destination: U32, destinationPort: U16,
                     payload: Payload, padding: seq<Byte>)
    ensures var frame := Frame(e, source, sourcePort, destination, destinationPort, payload) + padding;
      && Read(frame).Some?
      && var udp := UdpPart(frame)[..UdpLength(frame)];
         && udp[6..8] == frame[26..28]
         && frame[12..20] + [0, 17] + udp[4..6] + udp ==
            UdpCovered(e, source, sourcePort, destination, destinationPort, payload)
  {
    var frame := Frame(e, source, sourcePort, destination, destinationPort, payload) + padding;
    var part := UdpHeader(e, source, sourcePort, destination, destinationPort, payload) + payload;
    FrameIsRead(e, source, sourcePort, destination, destinationPort, payload, padding);
    FrameParts(e, source, sourcePort, destination, destinationPort, payload, padding);
    PartFields(e, source, sourcePort, destination, destinationPort, payload);
    assert UdpPart(frame)[..UdpLength(frame)] == part;
    assert TotalLength(frame) == 20 + |part|;
    SubSlice(frame, 20, |part|, 6, 8);
    AddressPair(frame, source, destination);
  }

  lemma AddressPair(frame: seq<Byte>, source: U32, destination: U32)
    requires |frame| >= 20 && frame[12..16] == Store32(Big, source) && frame[16..20] == Store32(Big, destination)
    ensures frame[12..20] == Addresses(source, destination)
  {
    assert frame[12..20] == frame[12..16] + frame[16..20];
  }

  lemma PartFields(e: Endian, source: U32, sourcePort: U16, destination: U32, destinationPort: U16, payload: Payload)
    ensures var part := UdpHeader(e, source, sourcePort, destination, destinationPort, payload) + payload;
      part[4..6] == Store16(Big, 8 + |payload|) && Load16(Big, part[4..6]) == |part|
  {
    var udp := UdpHeader(e, source, sourcePort, destination, destinationPort, payload);
    UdpBytes(e, source, sourcePort, destination, destinationPort, payload);
    assert (udp + payload)[4..6] == udp[4..6];
    StoreLoad16(Big, 8 + |payload|);
  }

  /** Its UDP check is accepted exactly when the sender is little-endian, the payload even or its last
      byte zero, or the check came out as zero, which says that there is none. */
  lemma FrameVerifiedIff(e: Endian, source: U32, sourcePort: U16, destination: U32, destinationPort: U16,
                         payload: Payload, padding: seq<Byte>)
    ensures var frame := Frame(e, source, sourcePort, destination, destinationPort, payload) + padding;
      && Read(frame).Some?
      && (UdpVerified(frame) <==>
            e == Little || |payload| % 2 == 0 || payload[|payload| - 1] == 0 || frame[26..28] == [0, 0])
  {
    FrameCovered(e, source, sourcePort, destination, destinationPort, payload, padding);
    UdpAcceptedIff(e, source, sourcePort, destination, destinationPort, payload);
  }

  /** The receiving socket against the same reader: of the datagrams it accepts, the socket takes exactly
      those without IP options for its port, and hands on their data, with any link padding behind it and
      cut to the size of its buffer; it never looks at a length or a check. */
  lemma RawReceiveAgrees(frame: seq<Byte>, port: U16)
    requires Read(frame).Some?
    ensures var d := Read(frame).value;
      var r := ReceiveRawUdp(frame, port);
      && (r.Some? <==> HeaderLength(frame) == 20 && d.destinationPort == port)
      && (r.Some? && |frame| <= 28 + CAPACITY ==> d.payload <= r.value == frame[28..])
  {
    var udp := UdpPart(frame);
    LoadStore16(Big, udp[2..4]);
    StoreLoad16(Big, port);
    if HeaderLength(frame) == 20 {
      assert frame[0] == 0x45;
      SubSlice(frame, 20, |udp|, 2, 4);
      SubSlice(frame, 20, |udp|, 8, UdpLength(frame));
    }
  }

  /** A frame as it is sent, with any padding: the socket hands on its data, and of the padding what fits. */
  lemma ReceivePadded(e: Endian, source: U32, sourcePort: U16, destination: U32, destinationPort: U16,
                      payload: Payload, padding: seq<Byte>)
    ensures var frame := Frame(e, source, sourcePort, destination, destinationPort, payload) + padding;
      var r := ReceiveRawUdp(frame, destinationPort);
      r.Some? && payload <= r.value && r.value <= payload + padding
  {
    var frame := Frame(e, source, sourcePort, destination, destinationPort, payload) + padding;
    FrameIsRead(e, source, sourcePort, destination, destinationPort, payload, padding);
    FrameParts(e, source, sourcePort, destination, destinationPort, payload, padding);
    RawReceiveAgrees(frame, destinationPort);
    DataOf(frame, IpHeader(e, source, destination, payload),
           UdpHeader(e, source, sourcePort, destination, destinationPort, payload), payload, padding, destinationPort);
  }

  lemma DataOf(frame: seq<Byte>, ip: seq<Byte>, udp: seq<Byte>, payload: Payload, padding: seq<Byte>, port: U16)
    requires |ip| == 20 && |udp| == 8 && frame == ip + udp + payload + padding && ReceiveRawUdp(frame, port).Some?
    ensures var p := ReceiveRawUdp(frame, port).value; payload <= p <= payload + padding
  {
    assert frame[28..] == payload + padding;
  }

  /** What is not IPv4 without options, or not UDP, or for another port, is not taken. */
  lemma RawReceiveRejects(frame: seq<Byte>, port: U16)
    requires |frame| >= 28
    requires frame[0] / 0x10 != 4 || frame[0] % 0x10 != 5 || frame[9] != 17 || Load16(Big, frame[22..24]) != port
    ensures ReceiveRawUdp(frame, port) == None
  {
    StoreLoad16(Big, port);
  }
}
