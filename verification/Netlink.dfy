/** Netlink requests: the aligned attribute append, and the requests the programs build with it. */
module Netlink {
  import opened Words

  const BUF_SIZE: nat := 256
  const NLMSG_HDRLEN: nat := 16
  const MSG_SIZE: nat := 12
  const RTA_HDRLEN: nat := 4

  /** NLMSG_ALIGN and RTA_ALIGN: round up to four. */
  function Align(n: nat): nat {
    4 * ((n + 3) / 4)
  }

  lemma AlignRoundsUp(n: nat)
    ensures n <= Align(n) < n + 4 && Align(n) % 4 == 0
    ensures n % 4 == 0 ==> Align(n) == n
  {
  }

  datatype Attribute = Attribute(kind: U16, data: seq<Byte>)

  function RtaLength(a: Attribute): nat {
    RTA_HDRLEN + |a.data|
  }

  /** Words an attribute takes, padding included. */
  function Words4(a: Attribute): nat {
    (RtaLength(a) + 3) / 4
  }

  /** Bytes an attribute takes, padding included. */
  function Space(a: Attribute): (n: nat)
    ensures RtaLength(a) <= n < RtaLength(a) + 4
  {
    4 * Words4(a)
  }

  function TotalWords(attrs: seq<Attribute>): nat
    decreases |attrs|
  {
    if attrs == [] then 0 else Words4(attrs[0]) + TotalWords(attrs[1..])
  }

  function TotalSpace(attrs: seq<Attribute>): nat {
    4 * TotalWords(attrs)
  }

  /** An attribute as it lies at `at`: length and type in host order, then the data. */
  ghost predicate LiesAt(e: Endian, buf: seq<Byte>, at: nat, a: Attribute) {
    && at + RtaLength(a) <= |buf| && RtaLength(a) < 0x1_0000
    && Load16(e, buf[at..at + 2]) == RtaLength(a)
    && Load16(e, buf[at + 2..at + 4]) == a.kind
    && buf[at + 4..at + 4 + |a.data|] == a.data
  }

  /** All attributes lie one after the other from `at` on. */
  ghost predicate Lie(e: Endian, buf: seq<Byte>, at: nat, attrs: seq<Attribute>)
    decreases |attrs|
  {
    attrs == [] || (LiesAt(e, buf, at, attrs[0]) && Lie(e, buf, at + Space(attrs[0]), attrs[1..]))
  }

  lemma LiesOnPrefix(e: Endian, buf: seq<Byte>, buf': seq<Byte>, at: nat, a: Attribute, n: nat)
    requires LiesAt(e, buf, at, a) && at + RtaLength(a) <= n <= |buf| == |buf'| && buf'[..n] == buf[..n]
    ensures LiesAt(e, buf', at, a)
  {
    SliceOfPrefix(buf', buf, n, at, at + 2);
    SliceOfPrefix(buf', buf, n, at + 2, at + 4);
    SliceOfPrefix(buf', buf, n, at + 4, at + 4 + |a.data|);
  }

  /** Only the bytes before the end of the attributes matter. */
  lemma {:induction false} LieOnPrefix(e: Endian, buf: seq<Byte>, buf': seq<Byte>, at: nat,
                                        attrs: seq<Attribute>, n: nat)
    requires Lie(e, buf, at, attrs) && at + TotalSpace(attrs) <= n <= |buf| == |buf'| && buf'[..n] == buf[..n]
    ensures Lie(e, buf', at, attrs)
    decreases |attrs|
  {
    if attrs != [] {
      LiesOnPrefix(e, buf, buf', at, attrs[0], n);
      LieOnPrefix(e, buf, buf', at + Space(attrs[0]), attrs[1..], n);
    }
  }

  lemma {:induction false} LieAppend(e: Endian, buf: seq<Byte>, at: nat, attrs: seq<Attribute>, a: Attribute,
                                      end: nat)
    requires Lie(e, buf, at, attrs) && end == at + TotalSpace(attrs) && LiesAt(e, buf, end, a)
    ensures Lie(e, buf, at, attrs + [a]) && TotalWords(attrs + [a]) == TotalWords(attrs) + Words4(a)
    decreases |attrs|
  {
    if attrs == [] {
      assert attrs + [a] == [a] && [a][1..] == [];
    } else {
      assert (attrs + [a])[1..] == attrs[1..] + [a];
      LieAppend(e, buf, at + Space(attrs[0]), attrs[1..], a, end);
    }
  }

  // ---------- the standard walk: RTA_OK and RTA_NEXT ----------

  /** The attributes a reader finds from `at` on when the message ends at `end`; it stops at the first
      header that does not fit what is left. */
  function Parse(e: Endian, buf: seq<Byte>, at: nat, end: nat): seq<Attribute>
    requires end <= |buf|
    decreases end - at
  {
    if at + RTA_HDRLEN > end then []
    else
      var len: nat := Load16(e, buf[at..at + 2]);
      if len < RTA_HDRLEN || at + len > end then []
      else
        AlignRoundsUp(len);
        [Attribute(Load16(e, buf[at + 2..at + 4]), buf[at + 4..at + len])] + Parse(e, buf, at + Align(len), end)
  }

  lemma ParseOne(e: Endian, buf: seq<Byte>, at: nat, a: Attribute, end: nat)
    requires LiesAt(e, buf, at, a) && at + RtaLength(a) <= end <= |buf|
    ensures Parse(e, buf, at, end) == [a] + Parse(e, buf, at + Space(a), end)
  {
  }

  /** Where attributes that start at `at` end. */
  function EndOf(at: nat, attrs: seq<Attribute>): nat
    decreases |attrs|
  {
    if attrs == [] then at else EndOf(at + Space(attrs[0]), attrs[1..])
  }

  lemma {:induction false} EndIsTotal(at: nat, attrs: seq<Attribute>)
    ensures EndOf(at, attrs) == at + TotalSpace(attrs)
    decreases |attrs|
  {
    if attrs != [] {
      EndIsTotal(at + Space(attrs[0]), attrs[1..]);
    }
  }

  /** A reader of the finished message recovers exactly the attributes, in order. */
  lemma {:induction false} ReadsBack(e: Endian, buf: seq<Byte>, at: nat, attrs: seq<Attribute>, end: nat)
    requires Lie(e, buf, at, attrs) && end == EndOf(at, attrs) <= |buf|
    ensures Parse(e, buf, at, end) == attrs
    decreases |attrs|
  {
    if attrs == [] {
      ParseNothing(e, buf, at);
    } else {
      var next := at + Space(attrs[0]);
      ReadsBack(e, buf, next, attrs[1..], end);
      EndIsTotal(next, attrs[1..]);
      ParseFirst(e, buf, at, attrs[0], end, attrs[1..]);
    }
  }

  lemma ParseNothing(e: Endian, buf: seq<Byte>, at: nat)
    requires at <= |buf|
    ensures Parse(e, buf, at, at) == []
  {
  }

  lemma ParseFirst(e: Endian, buf: seq<Byte>, at: nat, a: Attribute, end: nat, rest: seq<Attribute>)
    requires LiesAt(e, buf, at, a) && at + Space(a) <= end <= |buf|
    requires Parse(e, buf, at + Space(a), end) == rest
    ensures Parse(e, buf, at, end) == [a] + rest
  {
    ParseOne(e, buf, at, a, end);
  }

  // ---------- the request ----------

  class Request {
    const endian: Endian
    /** The fixed part that follows the header: ndmsg or rtmsg, both twelve bytes long. */
    const msg: seq<Byte>
    const nlmsgType: U16
    const nlmsgFlags: U16
    var nlmsgLen: nat
    const buf: array<Byte>
    /** The attributes appended so far. */
    ghost var attrs: seq<Attribute>

    ghost predicate Valid()
      reads this, buf
    {
      && buf.Length == BUF_SIZE && |msg| == MSG_SIZE
      && nlmsgLen == NLMSG_HDRLEN + |msg| + TotalSpace(attrs)
      && TotalSpace(attrs) <= BUF_SIZE
      && Lie(endian, buf[..], 0, attrs)
    }

    /** What sendNetlinkMessage is given: header, fixed part and the attributes, nlmsg_len bytes in all. */
    function Bytes(): (s: seq<Byte>)
      requires Valid()
      reads this, buf
      ensures |s| == nlmsgLen
    {
      Store32(endian, nlmsgLen) + Store16(endian, nlmsgType) + Store16(endian, nlmsgFlags) + Zeros(8) + msg
      + buf[..nlmsgLen - NLMSG_HDRLEN - MSG_SIZE]
    }

    constructor (endian: Endian, nlmsgType: U16, nlmsgFlags: U16, msg: seq<Byte>)
      requires |msg| == MSG_SIZE
      ensures Valid() && fresh(buf) && attrs == [] && nlmsgLen == NLMSG_HDRLEN + MSG_SIZE
      ensures this.endian == endian && this.msg == msg && this.nlmsgType == nlmsgType && this.nlmsgFlags == nlmsgFlags
    {
      this.endian, this.msg, this.nlmsgType, this.nlmsgFlags := endian, msg, nlmsgType, nlmsgFlags;
      buf := new Byte[BUF_SIZE](_ => 0);
      nlmsgLen := NLMSG_HDRLEN + |msg|;
      attrs := [];
    }

    method Put(at: nat, bytes: seq<Byte>)
      requires at + |bytes| <= buf.Length
      modifies buf
      ensures buf[..at] == old(buf[..at]) && buf[at..at + |bytes|] == bytes
      ensures buf[at + |bytes|..] == old(buf[at + |bytes|..])
    {
      var k := 0;
      while k < |bytes|
        invariant 0 <= k <= |bytes|
        invariant forall j :: 0 <= j < at ==> buf[j] == old(buf[j])
        invariant forall j :: 0 <= j < k ==> buf[at + j] == bytes[j]
        invariant forall j :: at + k <= j < buf.Length ==> buf[j] == old(buf[j])
      {
        buf[at + k] := bytes[k];
        k := k + 1;
      }
    }

    /** addRouterAttribute: no bounds check, so the caller leaves room. */
    method AddRouterAttribute(kind: U16, data: seq<Byte>)
      requires Valid() && nlmsgLen + RTA_HDRLEN + |data| <= NLMSG_HDRLEN + MSG_SIZE + BUF_SIZE
      modifies this`nlmsgLen, this`attrs, buf
      ensures Valid() && attrs == old(attrs) + [Attribute(kind, data)]
      ensures nlmsgLen == old(nlmsgLen) + Align(RTA_HDRLEN + |data|)
      ensures buf[..old(nlmsgLen) - NLMSG_HDRLEN - MSG_SIZE] == old(buf[..nlmsgLen - NLMSG_HDRLEN - MSG_SIZE])
    {
      ghost var a, before, at := Attribute(kind, data), buf[..], TotalSpace(attrs);
      assert Align(nlmsgLen) == nlmsgLen by {
        assert nlmsgLen == 4 * (7 + TotalWords(attrs));
      }
      var offset := Align(nlmsgLen) - (NLMSG_HDRLEN + MSG_SIZE);
      var rtaLen: U16 := RTA_HDRLEN + |data|;
      var bytes := Store16(endian, rtaLen) + Store16(endian, kind) + data;
      Put(offset, bytes);
      nlmsgLen := Align(nlmsgLen) + Align(rtaLen);
      Appended(endian, before, buf[..], attrs, a, at);
      PaddingFits(TotalWords(attrs), RtaLength(a));
      attrs := attrs + [a];
    }
  }

  /** What one write of length, type and data does to the attributes before it. */
  lemma Appended(e: Endian, before: seq<Byte>, after: seq<Byte>, attrs: seq<Attribute>, a: Attribute, at: nat)
    requires |before| == |after| && Lie(e, before, 0, attrs) && at == TotalSpace(attrs)
    requires at + RtaLength(a) <= |after| && RtaLength(a) < 0x1_0000
    requires after[..at] == before[..at]
    requires after[at..at + RtaLength(a)] == Store16(e, RtaLength(a)) + Store16(e, a.kind) + a.data
    ensures Lie(e, after, 0, attrs + [a])
    ensures TotalWords(attrs + [a]) == TotalWords(attrs) + Words4(a)
  {
    LieOnPrefix(e, before, after, 0, attrs, at);
    Written(e, after, at, a);
    LieAppend(e, after, 0, attrs, a, at);
  }

  lemma Written(e: Endian, buf: seq<Byte>, at: nat, a: Attribute)
    requires RtaLength(a) < 0x1_0000 && at + RtaLength(a) <= |buf|
    requires buf[at..at + RtaLength(a)] == Store16(e, RtaLength(a)) + Store16(e, a.kind) + a.data
    ensures LiesAt(e, buf, at, a)
  {
    ThreeSlices(buf, at, Store16(e, RtaLength(a)), Store16(e, a.kind), a.data);
    StoreLoad16(e, RtaLength(a));
    StoreLoad16(e, a.kind);
  }

  /** The buffer is a whole number of words, so the padding fits when the data does. */
  lemma PaddingFits(words: nat, length: nat)
    requires 4 * words + length <= BUF_SIZE
    ensures 4 * words + Align(length) <= BUF_SIZE
  {
  }

  // ---------- a reader of whole messages ----------

  datatype NetlinkMessage = NetlinkMessage(kind: U16, flags: U16, fixed: seq<Byte>, attrs: seq<Attribute>)

  /** A message whose length field fits what was received, with twelve bytes of fixed part. */
  function ReadMessage(e: Endian, bytes: seq<Byte>): Option<NetlinkMessage> {
    if |bytes| < 28 then None
    else
      var length: nat := Load32(e, bytes[..4]);
      if length < 28 || length > |bytes| then None
      else Some(NetlinkMessage(Load16(e, bytes[4..6]), Load16(e, bytes[6..8]), bytes[16..28],
                               Parse(e, bytes, 28, length)))
  }

  /** struct rtmsg. */
  datatype Route = Route(family: Byte, dstLen: Byte, srcLen: Byte, tos: Byte, table: Byte, protocol: Byte,
                         scope: Byte, kind: Byte, flags: U32)

  function ReadRoute(e: Endian, fixed: seq<Byte>): Route
    requires |fixed| == 12
  {
    Route(fixed[0], fixed[1], fixed[2], fixed[3], fixed[4], fixed[5], fixed[6], fixed[7], Load32(e, fixed[8..12]))
  }

  /** struct ndmsg. */
  datatype Neighbor = Neighbor(family: Byte, interfaceIndex: U32, state: U16, flags: Byte, kind: Byte)

  function ReadNeighbor(e: Endian, fixed: seq<Byte>): Neighbor
    requires |fixed| == 12
  {
    Neighbor(fixed[0], Load32(e, fixed[4..8]), Load16(e, fixed[8..10]), fixed[10], fixed[11])
  }

  lemma LiesShifted(e: Endian, buf: seq<Byte>, bytes: seq<Byte>, shift: nat, at: nat, a: Attribute, n: nat)
    requires LiesAt(e, buf, at, a) && at + RtaLength(a) <= n <= |buf| && shift + n <= |bytes|
    requires bytes[shift..shift + n] == buf[..n]
    ensures LiesAt(e, bytes, shift + at, a)
  {
    forall i, j | 0 <= i <= j <= n ensures bytes[shift + i..shift + j] == buf[i..j] {
      SubSlice(bytes, shift, n, i, j);
      assert buf[..n][i..j] == buf[i..j];
    }
  }

  lemma {:induction false} LieShifted(e: Endian, buf: seq<Byte>, bytes: seq<Byte>, shift: nat, at: nat,
                                      attrs: seq<Attribute>, n: nat)
    requires Lie(e, buf, at, attrs) && at + TotalSpace(attrs) <= n <= |buf| && shift + n <= |bytes|
    requires bytes[shift..shift + n] == buf[..n]
    ensures Lie(e, bytes, shift + at, attrs)
    decreases |attrs|
  {
    if attrs != [] {
      LiesShifted(e, buf, bytes, shift, at, attrs[0], n);
      LieShifted(e, buf, bytes, shift, at + Space(attrs[0]), attrs[1..], n);
    }
  }

  /** The whole request is read back: kind, flags, fixed part, and exactly the attributes, in order. */
  lemma RequestIsRead(r: Request)
    requires r.Valid()
    ensures ReadMessage(r.endian, r.Bytes()) == Some(NetlinkMessage(r.nlmsgType, r.nlmsgFlags, r.msg, r.attrs))
  {
    var e, bytes, n := r.endian, r.Bytes(), r.nlmsgLen - 28;
    HeaderFields(Store32(e, r.nlmsgLen), Store16(e, r.nlmsgType), Store16(e, r.nlmsgFlags), r.msg, r.buf[..n], bytes);
    StoreLoad32(e, r.nlmsgLen);
    StoreLoad16(e, r.nlmsgType);
    StoreLoad16(e, r.nlmsgFlags);
    assert r.buf[..][..n] == r.buf[..n];
    LieShifted(e, r.buf[..], bytes, 28, 0, r.attrs, n);
    EndIsTotal(28, r.attrs);
    ReadsBack(e, bytes, 28, r.attrs, r.nlmsgLen);
  }

  lemma HeaderFields(a: seq<Byte>, b: seq<Byte>, c: seq<Byte>, msg: seq<Byte>, rest: seq<Byte>, bytes: seq<Byte>)
    requires |a| == 4 && |b| == |c| == 2 && |msg| == 12 && bytes == a + b + c + Zeros(8) + msg + rest
    ensures bytes[..4] == a && bytes[4..6] == b && bytes[6..8] == c && bytes[16..28] == msg
    ensures bytes[28..28 + |rest|] == rest
  {
  }

  // ---------- the requests of the proxy's router ----------

  const RTM_NEWROUTE: U16 := 24
  const RTM_NEWNEIGH: U16 := 28
  const NLM_F_REQUEST: U16 := 0x001
  const NLM_F_CREATE: U16 := 0x400
  const RTA_DST: U16 := 1
  const RTA_SRC: U16 := 2
  const RTA_OIF: U16 := 4
  const RTA_GATEWAY: U16 := 5
  const NDA_DST: U16 := 1
  const AF_INET6: Byte := 10

  type Address6 = s: seq<Byte> | |s| == 16 witness Zeros(16)

  /** What is sent, as a reader of the whole message recovers it: the kind, a request that may create,
      the fixed part, and the attributes. */
  ghost predicate Carries(r: Request, kind: U16, attrs: seq<Attribute>)
    reads r, r.buf
  {
    && r.Valid()
    && ReadMessage(r.endian, r.Bytes()) == Some(NetlinkMessage(kind, 0x401, r.msg, attrs))
  }

  lemma CarriesThem(r: Request, kind: U16, attrs: seq<Attribute>)
    requires r.Valid() && r.nlmsgType == kind && r.nlmsgFlags == NLM_F_REQUEST + NLM_F_CREATE && r.attrs == attrs
    ensures Carries(r, kind, attrs)
  {
    RequestIsRead(r);
  }

  /** An IPv6 route of the main table, learnt from router advertisements, universal and unicast. */
  predicate RouteFields(e: Endian, fixed: seq<Byte>, prefixLength: Byte) {
    |fixed| == 12 && ReadRoute(e, fixed) == Route(10, prefixLength, 0, 0, 254, 9, 0, 1, 0)
  }

  function RouteMsg(dstLen: Byte): (s: seq<Byte>)
    ensures |s| == MSG_SIZE
  {
    [AF_INET6, dstLen, 0, 0, 254, 9, 0, 1, 0, 0, 0, 0]
  }

  lemma RouteIsRead(e: Endian, dstLen: Byte)
    ensures RouteFields(e, RouteMsg(dstLen), dstLen)
  {
    var m := RouteMsg(dstLen);
    assert m[8..12] == [0, 0, 0, 0] == Store32(e, 0);
    StoreLoad32(e, 0);
  }

  method AddRoute(e: Endian, address: Address6, bits: Byte, ifaceIndex: U32) returns (r: Request)
    ensures fresh(r) && r.endian == e
    ensures Carries(r, 24, [Attribute(1, address), Attribute(4, Store32(e, ifaceIndex))])
    ensures RouteFields(e, r.msg, bits)
  {
    r := new Request(e, RTM_NEWROUTE, NLM_F_REQUEST + NLM_F_CREATE, RouteMsg(bits));
    r.AddRouterAttribute(RTA_DST, address);
    r.AddRouterAttribute(RTA_OIF, Store32(e, ifaceIndex));
    CarriesThem(r, RTM_NEWROUTE, [Attribute(RTA_DST, address), Attribute(RTA_OIF, Store32(e, ifaceIndex))]);
    RouteIsRead(e, bits);
  }

  method SetDefaultGateway(e: Endian, address: Address6, ifaceIndex: U32) returns (r: Request)
    ensures fresh(r) && r.endian == e
    ensures Carries(r, 24, [Attribute(5, address), Attribute(4, Store32(e, ifaceIndex)), Attribute(2, Zeros(16))])
    ensures RouteFields(e, r.msg, 0)
  {
    r := new Request(e, RTM_NEWROUTE, NLM_F_REQUEST + NLM_F_CREATE, RouteMsg(0));
    r.AddRouterAttribute(RTA_GATEWAY, address);
    r.AddRouterAttribute(RTA_OIF, Store32(e, ifaceIndex));
    r.AddRouterAttribute(RTA_SRC, Zeros(16));
    CarriesThem(r, RTM_NEWROUTE,
                [Attribute(RTA_GATEWAY, address), Attribute(RTA_OIF, Store32(e, ifaceIndex)),
                 Attribute(RTA_SRC, Zeros(16))]);
    RouteIsRead(e, 0);
  }

  /** family, padding, interface index, state NUD_PERMANENT, flags NTF_PROXY, type. */
  function NeighborMsg(e: Endian, interfaceIndex: U32): (s: seq<Byte>)
    ensures |s| == MSG_SIZE
  {
    [AF_INET6, 0, 0, 0] + Store32(e, interfaceIndex) + Store16(e, 0x80) + [0x08, 0]
  }

  lemma NeighborIsRead(e: Endian, interfaceIndex: U32)
    ensures ReadNeighbor(e, NeighborMsg(e, interfaceIndex)) == Neighbor(10, interfaceIndex, 0x80, 0x08, 0)
  {
    var m := NeighborMsg(e, interfaceIndex);
    assert m[4..8] == Store32(e, interfaceIndex) && m[8..10] == Store16(e, 0x80);
    StoreLoad32(e, interfaceIndex);
    StoreLoad16(e, 0x80);
  }

  /** A permanent proxy entry for this neighbor. */
  method AddNeighbor(e: Endian, address: Address6, interfaceIndex: U32) returns (r: Request)
    ensures fresh(r) && r.endian == e
    ensures Carries(r, 28, [Attribute(1, address)])
    ensures |r.msg| == 12 && ReadNeighbor(e, r.msg) == Neighbor(10, interfaceIndex, 0x80, 0x08, 0)
  {
    r := new Request(e, RTM_NEWNEIGH, NLM_F_REQUEST + NLM_F_CREATE, NeighborMsg(e, interfaceIndex));
    r.AddRouterAttribute(NDA_DST, address);
    CarriesThem(r, RTM_NEWNEIGH, [Attribute(NDA_DST, address)]);
    NeighborIsRead(e, interfaceIndex);
  }
}
