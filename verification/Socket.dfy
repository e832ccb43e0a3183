/** The raw UDP socket of the DHCP client: the frame it builds, and the one it accepts. */
module Socket {
  import opened Words
  import opened Checksum
  import opened DhcpMessage
  import Bits

  const IP_SIZE: nat := 20
  const UDP_SIZE: nat := 8
  const IPVERSION_IHL: Byte := 0x45
  const IPDEFTTL: Byte := 64
  const IPPROTO_UDP: Byte := 17

  type Payload = s: seq<Byte> | |s| <= CAPACITY

  // ---------- the headers as they lie in memory ----------

  /** The IP header up to its check field, and after it. */
  function IpBefore(payload: Payload): (s: seq<Byte>)
    ensures |s| == 10
  {
    [IPVERSION_IHL, 0] + Store16(Big, IP_SIZE + UDP_SIZE + |payload|) + [0, 0, 0, 0, IPDEFTTL, IPPROTO_UDP]
  }

  function Addresses(source: U32, destination: U32): (s: seq<Byte>)
    ensures |s| == 8
  {
    Store32(Big, source) + Store32(Big, destination)
  }

  function UdpBefore(sourcePort: U16, destinationPort: U16, payload: Payload): (s: seq<Byte>)
    ensures |s| == 6
  {
    Store16(Big, sourcePort) + Store16(Big, destinationPort) + Store16(Big, UDP_SIZE + |payload|)
  }

  function Pseudo(source: U32, destination: U32, payload: Payload): (s: seq<Byte>)
    ensures |s| == 12
  {
    Addresses(source, destination) + [0, IPPROTO_UDP] + Store16(Big, UDP_SIZE + |payload|)
  }

  /** What the check field must make up for: the sum of everything it covers, itself left out. */
  function IpTotal(e: Endian, source: U32, destination: U32, payload: Payload): nat {
    WordSum(e, IpBefore(payload)) + WordSum(e, Addresses(source, destination))
  }

  function UdpTotal(e: Endian, source: U32, sourcePort: U16, destination: U32, destinationPort: U16,
                    payload: Payload): nat
  {
    WordSum(e, Pseudo(source, destination, payload))
    + WordSum(e, UdpBefore(sourcePort, destinationPort, payload)) + WordSum(e, payload)
  }

  function Check(total: nat): U16 {
    FinishChecksum(Fold(total))
  }

  function IpHeader(e: Endian, source: U32, destination: U32, payload: Payload): (s: seq<Byte>)
    ensures |s| == IP_SIZE
  {
    IpBefore(payload) + Store16(e, Check(IpTotal(e, source, destination, payload))) + Addresses(source, destination)
  }

  function UdpHeader(e: Endian, source: U32, sourcePort: U16, destination: U32, destinationPort: U16,
                     payload: Payload): (s: seq<Byte>)
    ensures |s| == UDP_SIZE
  {
    UdpBefore(sourcePort, destinationPort, payload)
    + Store16(e, Check(UdpTotal(e, source, sourcePort, destination, destinationPort, payload)))
  }

  /** A two-byte field in a header adds its own value to the sum. */
  lemma SumAround(e: Endian, before: seq<Byte>, field: U16, after: seq<Byte>)
    requires |before| % 2 == 0
    ensures WordSum(e, before + Store16(e, field) + after) == WordSum(e, before) + field + WordSum(e, after)
  {
    var f := Store16(e, field);
    WordSumConcat(e, before + f, after);
    WordSumConcat(e, before, f);
    assert f[..2] == f && f[2..] == [];
    StoreLoad16(e, field);
  }

  lemma NoOverflow(e: Endian, s: seq<Byte>, initial: U16)
    requires |s| <= 2 * CAPACITY
    ensures initial + WordSum(e, s) < TWO_32
    ensures (initial + WordSum(e, s)) % TWO_32 == initial + WordSum(e, s)
  {
    WordSumBound(e, s);
    NoWrap(initial + WordSum(e, s));
  }

  /** One link of the checksum chain: the value so far is the fold of some sum, and stays so. */
  method Continue(e: Endian, buffer: seq<Byte>, soFar: U32, ghost sum: nat) returns (checksum: U32)
    requires |buffer| <= 2 * CAPACITY && soFar == Fold(sum)
    ensures checksum == Fold(sum + WordSum(e, buffer))
  {
    NoOverflow(e, buffer, soFar);
    FoldChain(sum, WordSum(e, buffer));
    checksum := AddChecksum(e, buffer, soFar);
  }

  /** The IP header is filled in with a zero check field, summed, and completed. */
  method FillIp(e: Endian, source: U32, destination: U32, payload: Payload) returns (ip: seq<Byte>)
    ensures ip == IpHeader(e, source, destination, payload)
  {
    ip := IpBefore(payload) + [0, 0] + Addresses(source, destination);
    SumAround(e, IpBefore(payload), 0, Addresses(source, destination));
    assert Store16(e, 0) == [0, 0];
    var sum := Continue(e, ip, 0, 0);
    ip := ip[..10] + Store16(e, FinishChecksum(sum)) + ip[12..];
  }

  /** The UDP check chains six sums: the pseudo header in four pieces, the header, the payload. */
  method FillUdp(e: Endian, source: U32, sourcePort: U16, destination: U32, destinationPort: U16,
                 payload: Payload) returns (udp: seq<Byte>)
    ensures udp == UdpHeader(e, source, sourcePort, destination, destinationPort, payload)
  {
    ghost var p, u := Pseudo(source, destination, payload), UdpBefore(sourcePort, destinationPort, payload);
    udp := UdpBefore(sourcePort, destinationPort, payload) + [0, 0];
    ZeroField(e, u);
    var sum := PseudoSum(e, source, destination, payload);
    sum := Continue(e, udp, sum, WordSum(e, p));
    sum := Continue(e, payload, sum, WordSum(e, p) + WordSum(e, u));
    udp := udp[..6] + Store16(e, FinishChecksum(sum));
  }

  lemma ZeroField(e: Endian, before: seq<Byte>)
    requires |before| % 2 == 0
    ensures WordSum(e, before + [0, 0]) == WordSum(e, before)
  {
    SumAround(e, before, 0, []);
    assert before + Store16(e, 0) + [] == before + [0, 0];
  }

  method SendRawUdp(e: Endian, source: U32, sourcePort: U16, destination: U32, destinationPort: U16,
                    payload: Payload) returns (frame: seq<Byte>)
    ensures frame == IpHeader(e, source, destination, payload)
                     + UdpHeader(e, source, sourcePort, destination, destinationPort, payload) + payload
  {
    var ip := FillIp(e, source, destination, payload);
    var udp := FillUdp(e, source, sourcePort, destination, destinationPort, payload);
    frame := ip + udp + payload;
  }

  method PseudoSum(e: Endian, source: U32, destination: U32, payload: Payload) returns (sum: U32)
    ensures sum == Fold(WordSum(e, Pseudo(source, destination, payload)))
  {
    ghost var addresses := Addresses(source, destination);
    var c, d := Store16(Big, IPPROTO_UDP), Store16(Big, UDP_SIZE + |payload|);
    assert c == [0, IPPROTO_UDP];
    sum := AddressSum(e, source, destination);
    sum := Continue(e, c, sum, WordSum(e, addresses));
    sum := Continue(e, d, sum, WordSum(e, addresses) + WordSum(e, c));
    WordSumConcat(e, addresses + c, d);
    WordSumConcat(e, addresses, c);
  }

  method AddressSum(e: Endian, source: U32, destination: U32) returns (sum: U32)
    ensures sum == Fold(WordSum(e, Addresses(source, destination)))
  {
    var a, b := Store32(Big, source), Store32(Big, destination);
    sum := Continue(e, a, 0, 0);
    sum := Continue(e, b, sum, WordSum(e, a));
    WordSumConcat(e, a, b);
  }

  // ---------- the receiving end ----------

  /** A receiver's sum as section 1 of RFC 1071 has it: network order, zero-padded to an even length. */
  function ReceiverSum(s: seq<Byte>): nat {
    WordSum(Big, if |s| % 2 == 0 then s else s + [0])
  }

  predicate Accepts(s: seq<Byte>) {
    Fold(ReceiverSum(s)) == 0xFFFF
  }

  /** A sum completed by its check value folds to all ones. */
  lemma CheckCompletes(total: nat)
    requires total > 0
    ensures Fold(total + Check(total)) == 0xFFFF
  {
    var q := (total - 1) / 0xFFFF;
    assert total == Fold(total) + 0xFFFF * q;
    FoldShift(0xFFFF, q);
  }

  /** An even buffer that sums to all ones in one byte order does so in the other. */
  lemma AllOnesEitherOrder(s: seq<Byte>)
    requires |s| % 2 == 0 && Fold(WordSum(Little, s)) == 0xFFFF
    ensures Fold(WordSum(Big, s)) == 0xFFFF
  {
    ByteOrderIndependent(s);
  }

  lemma AcceptsEven(e: Endian, s: seq<Byte>)
    requires |s| % 2 == 0 && Fold(WordSum(e, s)) == 0xFFFF
    ensures Accepts(s)
  {
    if e == Little {
      AllOnesEitherOrder(s);
    }
  }

  lemma StartsNonZero(e: Endian, a: Byte, rest: seq<Byte>)
    requires a > 0 && |rest| > 0
    ensures WordSum(e, [a] + rest) > 0
  {
    assert ([a] + rest)[..2] == [a, rest[0]];
  }

  /** Every receiver accepts the IP header, whatever the sender's byte order. */
  lemma IpHeaderAccepted(e: Endian, source: U32, destination: U32, payload: Payload)
    ensures Accepts(IpHeader(e, source, destination, payload))
  {
    var total := IpTotal(e, source, destination, payload);
    SumAround(e, IpBefore(payload), Check(total), Addresses(source, destination));
    assert IpBefore(payload) == [IPVERSION_IHL] + IpBefore(payload)[1..];
    StartsNonZero(e, IPVERSION_IHL, IpBefore(payload)[1..]);
    CheckCompletes(total);
    AcceptsEven(e, IpHeader(e, source, destination, payload));
  }

  /** What the UDP check field covers, as a receiver lays it out. */
  function UdpCovered(e: Endian, source: U32, sourcePort: U16, destination: U32, destinationPort: U16,
                      payload: Payload): seq<Byte>
  {
    Pseudo(source, destination, payload)
    + UdpHeader(e, source, sourcePort, destination, destinationPort, payload) + payload
  }

  lemma UdpSum(e: Endian, source: U32, sourcePort: U16, destination: U32, destinationPort: U16, payload: Payload)
    ensures var s := UdpCovered(e, source, sourcePort, destination, destinationPort, payload);
      |s| == 20 + |payload| && Fold(WordSum(e, s)) == 0xFFFF
  {
    var p, u := Pseudo(source, destination, payload), UdpBefore(sourcePort, destinationPort, payload);
    var total := UdpTotal(e, source, sourcePort, destination, destinationPort, payload);
    var s := UdpCovered(e, source, sourcePort, destination, destinationPort, payload);
    assert s == (p + u) + Store16(e, Check(total)) + payload;
    SumAround(e, p + u, Check(total), payload);
    WordSumConcat(e, p, u);
    PseudoNonZero(e, source, destination, payload);
    CheckCompletes(total);
  }

  lemma PseudoNonZero(e: Endian, source: U32, destination: U32, payload: Payload)
    ensures WordSum(e, Pseudo(source, destination, payload)) > 0
  {
    var a, len := Addresses(source, destination), Store16(Big, UDP_SIZE + |payload|);
    WordSumConcat(e, a + [0, IPPROTO_UDP], len);
    WordSumConcat(e, a, [0, IPPROTO_UDP]);
    assert [0, IPPROTO_UDP][..2] == [0, IPPROTO_UDP];
  }

  /** A receiver accepts the datagram exactly when the sender is little-endian, the payload has even
      length, or its odd last byte is zero: a big-endian sender adds that byte in the wrong half. */
  lemma UdpAcceptedIff(e: Endian, source: U32, sourcePort: U16, destination: U32, destinationPort: U16,
                       payload: Payload)
    ensures Accepts(UdpCovered(e, source, sourcePort, destination, destinationPort, payload)) <==>
            e == Little || |payload| % 2 == 0 || payload[|payload| - 1] == 0
  {
    var s := UdpCovered(e, source, sourcePort, destination, destinationPort, payload);
    UdpSum(e, source, sourcePort, destination, destinationPort, payload);
    AcceptedIff(e, Pseudo(source, destination, payload)
                   + UdpHeader(e, source, sourcePort, destination, destinationPort, payload), payload);
  }

  lemma AcceptedIff(e: Endian, head: seq<Byte>, payload: seq<Byte>)
    requires |head| == 20 && Fold(WordSum(e, head + payload)) == 0xFFFF
    ensures Accepts(head + payload) <==> e == Little || |payload| % 2 == 0 || payload[|payload| - 1] == 0
  {
    if |payload| % 2 == 0 {
      AcceptsEven(e, head + payload);
    } else {
      LastOfConcat(head, payload);
      OddAcceptedIff(e, head + payload);
    }
  }

  lemma LastOfConcat(a: seq<Byte>, b: seq<Byte>)
    requires b != []
    ensures (a + b)[|a + b| - 1] == b[|b| - 1]
  {
  }

  lemma OddAcceptedIff(e: Endian, s: seq<Byte>)
    requires |s| % 2 == 1 && |s| > 1 && Fold(WordSum(e, s)) == 0xFFFF
    ensures Accepts(s) <==> e == Little || s[|s| - 1] == 0
  {
    var body, last: nat := s[..|s| - 1], s[|s| - 1];
    var padded := s + [0];
    assert s == body + [s[|s| - 1]] && padded == body + [s[|s| - 1], 0];
    WordSumConcat(e, body, [s[|s| - 1]]);
    WordSumConcat(e, body, [s[|s| - 1], 0]);
    LastWord(e, s[|s| - 1]);
    if e == Little {
      AllOnesEitherOrder(padded);
    } else {
      BigPadding(WordSum(Big, body), last);
    }
  }

  lemma LastWord(e: Endian, b: Byte)
    ensures WordSum(e, [b]) == b
    ensures WordSum(e, [b, 0]) == if e == Little then b else 0x100 * b
  {
    assert [b, 0][..2] == [b, 0];
  }

  lemma BigPadding(w: nat, b: nat)
    requires b < 0x100 && Fold(w + b) == 0xFFFF
    ensures Fold(w + 0x100 * b) == 0xFFFF <==> b == 0
  {
    // 255 * b is below 65535, so the fold can only return to all ones when it is zero
    var q := (w + b - 1) / 0xFFFF;
    assert w + b == 0xFFFF + 0xFFFF * q;
    if b > 0 {
      Bits.DivModUnique(w + 0x100 * b - 1, 0xFFFF, q + 1, 0xFF * b - 1);
    }
  }

  // ---------- receiveRawUdp ----------

  /** The payload receiveRawUdp delivers from a frame; None when the frame is not for this port. The
      read stops at the capacity of the message. */
  function ReceiveRawUdp(frame: seq<Byte>, expectedPort: U16): Option<Payload> {
    if |frame| < IP_SIZE + UDP_SIZE then None
    else if frame[0] == IPVERSION_IHL && frame[9] == IPPROTO_UDP && frame[22..24] == Store16(Big, expectedPort) then
      var p := frame[IP_SIZE + UDP_SIZE..];
      Some(if |p| <= CAPACITY then p else p[..CAPACITY])
    else None
  }

  /** What is sent raw is received raw, unchanged, exactly on the port it was sent to. */
  lemma RawRoundTrip(e: Endian, source: U32, sourcePort: U16, destination: U32, destinationPort: U16,
                     payload: Payload, port: U16)
    ensures var frame := IpHeader(e, source, destination, payload)
                         + UdpHeader(e, source, sourcePort, destination, destinationPort, payload) + payload;
      ReceiveRawUdp(frame, port) == if port == destinationPort then Some(payload) else None
  {
    var ip := IpHeader(e, source, destination, payload);
    var udp := UdpHeader(e, source, sourcePort, destination, destinationPort, payload);
    var frame := ip + udp + payload;
    assert frame[0] == ip[0] == IpBefore(payload)[0] == IPVERSION_IHL;
    assert frame[9] == ip[9] == IpBefore(payload)[9] == IPPROTO_UDP;
    assert frame[22..24] == udp[2..4] == Store16(Big, destinationPort);
    assert frame[28..] == payload;
    StoreLoad16(Big, port);
    StoreLoad16(Big, destinationPort);
  }
}
