/** The DHCP message buffer: built in place by the factories, read back by both ends. */
module DhcpMessage {
  import opened Words
  import opened Dhcp
  import opened Codec

  /** Size of the Dhcp struct, offset of its option area, and the memory a Message keeps in reach of
      a four-byte read that starts inside the struct (four more bytes follow it in the object). */
  const CAPACITY: nat := 1260
  const OPTIONS: nat := 236
  const MEMORY: nat := 1264

  const DEFAULT_LEASE_TIME: U32 := 10 * 60
  const REQUEST_PARAMETERS: seq<Byte> :=
    [OPT_SUBNET_MASK, OPT_GATEWAY, OPT_DNS, OPT_BROADCAST_ADDR, OPT_LEASE_TIME, OPT_T1, OPT_T2, OPT_MTU]

  /** The fixed fields a builder sets; addresses and ids as the numbers they spell in network order. */
  datatype Header = Header(op: Byte, xid: U32, flags: U16, yiaddr: U32, giaddr: U32, mac: Mac)

  ghost predicate HeaderIs(m: seq<Byte>, h: Header)
    requires |m| >= OPTIONS
  {
    && m[0] == h.op && m[1] == HTYPE_ETHER && m[2] == ETH_ALEN && m[3] == 0
    && m[4..8] == Store32(Big, h.xid)
    && m[8] == 0 && m[9] == 0
    && m[10..12] == Store16(Big, h.flags)
    && m[12..16] == Zeros(4)
    && m[16..20] == Store32(Big, h.yiaddr)
    && m[20..24] == Zeros(4)
    && m[24..28] == Store32(Big, h.giaddr)
    && m[28..34] == h.mac
    && m[34..OPTIONS] == Zeros(202)
  }

  /** The first `size` bytes are the header, the cookie and these options, still open at the end. */
  ghost predicate Open(m: seq<Byte>, size: nat, h: Header, ts: seq<Tlv>) {
    && |m| == MEMORY && size == OPTIONS + 4 + |Encode(ts)| <= CAPACITY
    && HeaderIs(m, h)
    && m[OPTIONS..OPTIONS + 4] == COOKIE
    && m[OPTIONS + 4..size] == Encode(ts)
  }

  /** The same, closed by the end marker: this fixes every byte that is sent. */
  ghost predicate Complete(m: seq<Byte>, size: nat, h: Header, ts: seq<Tlv>) {
    && |m| == MEMORY && size == OPTIONS + 5 + |Encode(ts)| <= CAPACITY
    && HeaderIs(m, h)
    && m[OPTIONS..OPTIONS + 4] == COOKIE
    && m[OPTIONS + 4..size - 1] == Encode(ts)
    && m[size - 1] == OPT_END
  }

  /** Only the bytes that are sent matter. */
  lemma CompleteOnPrefix(m: seq<Byte>, m': seq<Byte>, size: nat, h: Header, ts: seq<Tlv>)
    requires Complete(m, size, h, ts)
    requires |m'| == MEMORY && m'[..size] == m[..size]
    ensures Complete(m', size, h, ts)
  {
    assert forall k :: 0 <= k < size ==> m'[k] == m'[..size][k] == m[..size][k] == m[k];
    forall a, b | 0 <= a <= b <= size ensures m'[a..b] == m[a..b] {
      SameSlice(m', m, a, b);
    }
  }

  // ---------- everything either end reads of a message ----------

  datatype Wire = Wire(wellFormed: bool, op: Byte, xid: U32, flags: U16, giaddr: U32, yiaddr: U32, mac: Mac,
                       mtype: Byte, serverId: U32, requestedIp: U32, info: Info, infoOk: bool)

  function OptionsSize(size: nat): nat {
    if size <= OPTIONS then 0 else size - OPTIONS
  }

  predicate WellFormed(m: seq<Byte>, size: nat)
    requires |m| == MEMORY
  {
    && OPTIONS + 4 <= size
    && m[1] == HTYPE_ETHER && m[2] == ETH_ALEN
    && m[OPTIONS..OPTIONS + 4] == COOKIE
  }

  function ByteOption(o: seq<Byte>, n: nat, code: Byte): Byte
    requires n <= |o|
  {
    var p := FindOption(o, n, 4, code);
    if p.Some? && o[p.value - 1] == 1 then o[p.value] else 0
  }

  function WordOption(o: seq<Byte>, n: nat, code: Byte): U32
    requires n + 3 <= |o|
  {
    var p := FindOption(o, n, 4, code);
    if p.Some? && o[p.value - 1] == 4 then Load32(Big, o[p.value..p.value + 4]) else 0
  }

  function Decode(m: seq<Byte>, size: nat): Wire
    requires |m| == MEMORY && size <= CAPACITY
  {
    var o, n := m[OPTIONS..], OptionsSize(size);
    var (info, ok) := ScanOptions(o, n, 4, ZERO_INFO);
    Wire(WellFormed(m, size), m[0], Load32(Big, m[4..8]), Load16(Big, m[10..12]),
         Load32(Big, m[24..28]), Load32(Big, m[16..20]), m[28..34],
         ByteOption(o, n, OPT_MESSAGE_TYPE), WordOption(o, n, OPT_SERVER_ID), WordOption(o, n, OPT_REQUESTED_IP),
         info, n >= 4 && ok)
  }

  function ByteIn(ts: seq<Tlv>, code: Byte): Byte {
    match FirstMatch(ts, code)
    case None => 0
    case Some(v) => if |v| == 1 then v[0] else 0
  }

  function WordIn(ts: seq<Tlv>, code: Byte): U32 {
    match FirstMatch(ts, code)
    case None => 0
    case Some(v) => if |v| == 4 then Load32(Big, v) else 0
  }

  /** What a reader must see in a message built from this header and these options. */
  function WireOf(h: Header, ts: seq<Tlv>): Wire {
    Wire(true, h.op, h.xid, h.flags, h.giaddr, h.yiaddr, h.mac,
         ByteIn(ts, OPT_MESSAGE_TYPE), WordIn(ts, OPT_SERVER_ID), WordIn(ts, OPT_REQUESTED_IP),
         ApplyAll(ZERO_INFO, ts), true)
  }

  /** A message as a factory is told to build it. */
  datatype Built = Built(header: Header, options: seq<Tlv>)

  function OnWire(b: Built): Wire {
    WireOf(b.header, b.options)
  }

  /** The codec round trip: whatever buffer the bytes arrive in, and whatever padding arrives behind
      them, every reader recovers the message. */
  lemma DecodeComplete(m: seq<Byte>, size: nat, length: nat, h: Header, ts: seq<Tlv>)
    requires Complete(m, size, h, ts) && NoEnd(ts) && size <= length <= CAPACITY
    ensures Decode(m, length) == WireOf(h, ts)
  {
    var o, n := m[OPTIONS..], OptionsSize(length);
    assert Codec.Holds(o, n, 4, ts) by {
      var end := 4 + |Encode(ts)|;
      assert o[4..end] == m[OPTIONS + 4..size - 1] && o[end] == m[size - 1];
    }
    FindsFirstMatch(o, n, 4, ts, OPT_MESSAGE_TYPE);
    FindsFirstMatch(o, n, 4, ts, OPT_SERVER_ID);
    FindsFirstMatch(o, n, 4, ts, OPT_REQUESTED_IP);
    ScanAppliesAll(o, n, 4, ts, ZERO_INFO);
    StoreLoad32(Big, h.xid);
    StoreLoad32(Big, h.yiaddr);
    StoreLoad32(Big, h.giaddr);
    StoreLoad16(Big, h.flags);
    ByteValue(o, n, ts);
    WordValue(o, n, ts, OPT_SERVER_ID);
    WordValue(o, n, ts, OPT_REQUESTED_IP);
  }

  /** End to end: the bytes of a finished message, read into any buffer with whatever was in it before,
      and with any padding behind them, decode to what the factory was told to build. */
  lemma Delivered(m: seq<Byte>, m': seq<Byte>, size: nat, length: nat, b: Built)
    requires Complete(m, size, b.header, b.options) && NoEnd(b.options) && size <= length <= CAPACITY
    requires |m'| == MEMORY && m'[..size] == m[..size]
    ensures Decode(m', length) == OnWire(b)
  {
    CompleteOnPrefix(m, m', size, b.header, b.options);
    DecodeComplete(m', size, length, b.header, b.options);
  }

  /** The bytes that make a message recognisable: hardware type and address length, and the cookie. */
  predicate Recognised(at: nat) {
    at in {1, 2, OPTIONS, OPTIONS + 1, OPTIONS + 2, OPTIONS + 3}
  }

  /** A message is rejected when one of these bytes is changed in any way, or when it is cut off before
      the end of the cookie, and for no other change of a byte. */
  lemma DamageIsRejected(m: seq<Byte>, size: nat, h: Header, ts: seq<Tlv>, at: nat, b: Byte)
    requires Complete(m, size, h, ts) && at < MEMORY && b != m[at]
    ensures Decode(m[at := b], size).wellFormed <==> !Recognised(at)
    ensures forall n: nat :: n <= CAPACITY ==> (Decode(m, n).wellFormed <==> n >= 240)
  {
    var m' := m[at := b];
    assert m[OPTIONS..OPTIONS + 4] == [m[OPTIONS], m[OPTIONS + 1], m[OPTIONS + 2], m[OPTIONS + 3]];
    assert m'[OPTIONS..OPTIONS + 4] == [m'[OPTIONS], m'[OPTIONS + 1], m'[OPTIONS + 2], m'[OPTIONS + 3]];
  }

  lemma ByteValue(o: seq<Byte>, n: nat, ts: seq<Tlv>)
    requires Codec.Holds(o, n, 4, ts)
    ensures ByteOption(o, n, OPT_MESSAGE_TYPE) == ByteIn(ts, OPT_MESSAGE_TYPE)
  {
    FindsFirstMatch(o, n, 4, ts, OPT_MESSAGE_TYPE);
    var p := FindOption(o, n, 4, OPT_MESSAGE_TYPE);
    if p.Some? && o[p.value - 1] == 1 {
      assert o[p.value] == o[p.value..p.value + 1][0];
    }
  }

  lemma WordValue(o: seq<Byte>, n: nat, ts: seq<Tlv>, code: Byte)
    requires Codec.Holds(o, n, 4, ts) && n + 3 <= |o|
    ensures WordOption(o, n, code) == WordIn(ts, code)
  {
    FindsFirstMatch(o, n, 4, ts, code);
  }

  // ---------- the messages the two programs build ----------

  function FromClient(mac: Mac, xid: U32): Header {
    Header(OP_BOOTREQUEST, xid, FLAGS_BROADCAST, 0, 0, mac)
  }

  /** Replies echo xid, flags, relay address and the first six bytes of chaddr. */
  function Reply(to: Wire, yiaddr: U32): Header {
    Header(OP_BOOTREPLY, to.xid, to.flags, yiaddr, to.giaddr, to.mac)
  }

  function DiscoverOptions(): seq<Tlv> {
    [Tlv(OPT_MESSAGE_TYPE, [DHCPDISCOVER]), Tlv(OPT_PARAMETER_LIST, REQUEST_PARAMETERS)]
  }

  function RequestOptions(requestAddress: U32, serverAddress: U32): seq<Tlv> {
    [Tlv(OPT_MESSAGE_TYPE, [DHCPREQUEST]), Tlv(OPT_PARAMETER_LIST, REQUEST_PARAMETERS),
     Tlv(OPT_REQUESTED_IP, Store32(Big, requestAddress)), Tlv(OPT_SERVER_ID, Store32(Big, serverAddress))]
  }

  function AddressBytes(addresses: seq<U32>): (s: seq<Byte>)
    ensures |s| == 4 * |addresses|
  {
    if addresses == [] then [] else Store32(Big, addresses[0]) + AddressBytes(addresses[1..])
  }

  /** The length argument of addOption is one byte wide. */
  function DnsValue(dns: seq<U32>): Value {
    AddressBytes(dns)[..4 * |dns| % 0x100]
  }

  /** The lease time is the one word written in the server's own byte order. */
  function GrantOptions(kind: Byte, e: Endian, server: U32, netmask: U32, gateway: U32, dns: seq<U32>): seq<Tlv> {
    [Tlv(OPT_MESSAGE_TYPE, [kind])] + LeaseOptions(server, e) + NetworkOptions(netmask, gateway, dns)
  }

  function LeaseOptions(server: U32, e: Endian): seq<Tlv> {
    [Tlv(OPT_SERVER_ID, Store32(Big, server)), Tlv(OPT_LEASE_TIME, Store32(e, DEFAULT_LEASE_TIME))]
  }

  function NetworkOptions(netmask: U32, gateway: U32, dns: seq<U32>): seq<Tlv> {
    [Tlv(OPT_SUBNET_MASK, Store32(Big, netmask)), Tlv(OPT_GATEWAY, Store32(Big, gateway)), Tlv(OPT_DNS, DnsValue(dns))]
  }

  function NackOptions(server: U32): seq<Tlv> {
    [Tlv(OPT_MESSAGE_TYPE, [DHCPNAK]), Tlv(OPT_SERVER_ID, Store32(Big, server))]
  }

  // ---------- what a reader recovers from them ----------

  /** DNS server `k` as the client stores it: zero when the list, cut to its one-byte length, ends before. */
  function DnsSlot(dns: seq<U32>, k: nat): U32 {
    if 4 * k + 4 <= 4 * |dns| % 0x100 then dns[k] else 0
  }

  lemma {:induction false} AddressAt(dns: seq<U32>, k: nat)
    requires k < |dns|
    ensures AddressBytes(dns)[4 * k..4 * k + 4] == Store32(Big, dns[k])
  {
    if k > 0 {
      AddressAt(dns[1..], k - 1);
      assert AddressBytes(dns)[4 * k..4 * k + 4] == AddressBytes(dns[1..])[4 * (k - 1)..4 * (k - 1) + 4];
    }
  }

  lemma DnsWord(dns: seq<U32>, k: nat)
    ensures WordAt(DnsValue(dns), 4 * k, 0) == DnsSlot(dns, k)
  {
    if 4 * k + 4 <= 4 * |dns| % 0x100 {
      AddressAt(dns, k);
      assert DnsValue(dns)[4 * k..4 * k + 4] == AddressBytes(dns)[4 * k..4 * k + 4];
      StoreLoad32(Big, dns[k]);
    }
  }

  /** The lease time a client reads: it converts from network order, which the server did not write. */
  function LeaseTimeRead(server: Endian): U32 {
    Load32(Big, Store32(server, DEFAULT_LEASE_TIME))
  }

  /** The client reads the server's ten minutes exactly when the server is a big-endian machine. */
  lemma LeaseTimeSurvivesIffBigEndian(server: Endian)
    ensures LeaseTimeRead(server) == DEFAULT_LEASE_TIME <==> server == Big
    ensures server == Little ==> LeaseTimeRead(server) == 1476526080
  {
    StoreLoad32(Big, DEFAULT_LEASE_TIME);
  }

  /** Both readers of the client, getOption and the configureDhcp loop, recover every field of an
      offer or ack; the lease time comes out as its bytes read in network order. */
  lemma GrantRead(kind: Byte, e: Endian, server: U32, netmask: U32, gateway: U32, dns: seq<U32>, h: Header)
    ensures var ts := GrantOptions(kind, e, server, netmask, gateway, dns);
      var w := WireOf(h, ts);
      && NoEnd(ts)
      && w.mtype == kind && w.serverId == server && w.requestedIp == 0
      && w.info == Info(0, 0, LeaseTimeRead(e), 0, [DnsSlot(dns, 0), DnsSlot(dns, 1), DnsSlot(dns, 2), DnsSlot(dns, 3)],
                        gateway, netmask, server, 0)
  {
    var ts := GrantOptions(kind, e, server, netmask, gateway, dns);
    GrantMatches(kind, e, server, netmask, gateway, dns);
    GrantInfo(kind, e, server, netmask, gateway, dns);
    StoreLoad32(Big, server);
  }

  lemma GrantMatches(kind: Byte, e: Endian, server: U32, netmask: U32, gateway: U32, dns: seq<U32>)
    ensures var ts := GrantOptions(kind, e, server, netmask, gateway, dns);
      && NoEnd(ts) && UniqueCodes(ts)
      && FirstMatch(ts, OPT_MESSAGE_TYPE) == Some([kind])
      && FirstMatch(ts, OPT_SERVER_ID) == Some(Store32(Big, server))
      && FirstMatch(ts, OPT_REQUESTED_IP) == None
      && FirstMatch(ts, OPT_LEASE_TIME) == Some(Store32(e, DEFAULT_LEASE_TIME))
      && FirstMatch(ts, OPT_SUBNET_MASK) == Some(Store32(Big, netmask))
      && FirstMatch(ts, OPT_GATEWAY) == Some(Store32(Big, gateway))
      && FirstMatch(ts, OPT_DNS) == Some(DnsValue(dns))
      && FirstMatch(ts, OPT_T1) == None && FirstMatch(ts, OPT_T2) == None && FirstMatch(ts, OPT_MTU) == None
  {
    var ts := GrantOptions(kind, e, server, netmask, gateway, dns);
    FirstMatchIs(ts, OPT_MESSAGE_TYPE, 0);
    FirstMatchIs(ts, OPT_SERVER_ID, 1);
    FirstMatchIs(ts, OPT_LEASE_TIME, 2);
    FirstMatchIs(ts, OPT_SUBNET_MASK, 3);
    FirstMatchIs(ts, OPT_GATEWAY, 4);
    FirstMatchIs(ts, OPT_DNS, 5);
    FirstMatchIs(ts, OPT_REQUESTED_IP, 6);
    FirstMatchIs(ts, OPT_T1, 6);
    FirstMatchIs(ts, OPT_T2, 6);
    FirstMatchIs(ts, OPT_MTU, 6);
  }

  lemma GrantInfo(kind: Byte, e: Endian, server: U32, netmask: U32, gateway: U32, dns: seq<U32>)
    ensures ApplyAll(ZERO_INFO, GrantOptions(kind, e, server, netmask, gateway, dns)) ==
            Info(0, 0, LeaseTimeRead(e), 0, [DnsSlot(dns, 0), DnsSlot(dns, 1), DnsSlot(dns, 2), DnsSlot(dns, 3)],
                 gateway, netmask, server, 0)
  {
    var ts := GrantOptions(kind, e, server, netmask, gateway, dns);
    GrantMatches(kind, e, server, netmask, gateway, dns);
    GrantAddresses(ts, server, netmask, gateway);
    GrantNumbers(ts, e);
    ReadersAgree(ZERO_INFO, ts, OPT_DNS);
    DnsWord(dns, 0);
    DnsWord(dns, 1);
    DnsWord(dns, 2);
    DnsWord(dns, 3);
    OfferedAddressUntouched(ZERO_INFO, ts);
    OneWord(ApplyAll(ZERO_INFO, ts));
  }

  lemma GrantAddresses(ts: seq<Tlv>, server: U32, netmask: U32, gateway: U32)
    requires UniqueCodes(ts)
    requires FirstMatch(ts, OPT_SERVER_ID) == Some(Store32(Big, server))
    requires FirstMatch(ts, OPT_SUBNET_MASK) == Some(Store32(Big, netmask))
    requires FirstMatch(ts, OPT_GATEWAY) == Some(Store32(Big, gateway))
    ensures var d := ApplyAll(ZERO_INFO, ts);
      && Governed(d, OPT_SERVER_ID) == [server]
      && Governed(d, OPT_SUBNET_MASK) == [netmask]
      && Governed(d, OPT_GATEWAY) == [gateway]
  {
    ReadersAgree(ZERO_INFO, ts, OPT_SERVER_ID);
    ReadersAgree(ZERO_INFO, ts, OPT_SUBNET_MASK);
    ReadersAgree(ZERO_INFO, ts, OPT_GATEWAY);
    StoreLoad32(Big, server);
    StoreLoad32(Big, netmask);
    StoreLoad32(Big, gateway);
  }

  lemma GrantNumbers(ts: seq<Tlv>, e: Endian)
    requires UniqueCodes(ts)
    requires FirstMatch(ts, OPT_LEASE_TIME) == Some(Store32(e, DEFAULT_LEASE_TIME))
    requires FirstMatch(ts, OPT_T1) == None && FirstMatch(ts, OPT_T2) == None && FirstMatch(ts, OPT_MTU) == None
    ensures var d := ApplyAll(ZERO_INFO, ts);
      && Governed(d, OPT_LEASE_TIME) == [LeaseTimeRead(e)]
      && Governed(d, OPT_T1) == Governed(d, OPT_T2) == Governed(d, OPT_MTU) == [0]
  {
    ReadersAgree(ZERO_INFO, ts, OPT_LEASE_TIME);
    ReadersAgree(ZERO_INFO, ts, OPT_T1);
    ReadersAgree(ZERO_INFO, ts, OPT_T2);
    ReadersAgree(ZERO_INFO, ts, OPT_MTU);
  }

  /** Reading the governed fields one by one gives the record. */
  lemma OneWord(d: Info)
    ensures d == Info(Governed(d, OPT_T1)[0], Governed(d, OPT_T2)[0], Governed(d, OPT_LEASE_TIME)[0],
                      Governed(d, OPT_MTU)[0], Governed(d, OPT_DNS), Governed(d, OPT_GATEWAY)[0],
                      Governed(d, OPT_SUBNET_MASK)[0], Governed(d, OPT_SERVER_ID)[0], d.offeredAddress)
  {
  }

  lemma {:induction false} OfferedAddressUntouched(d: Info, ts: seq<Tlv>)
    ensures ApplyAll(d, ts).offeredAddress == d.offeredAddress
    decreases |ts|
  {
    if ts != [] {
      OfferedAddressUntouched(ApplyOption(d, ts[0].code, ts[0].value), ts[1..]);
    }
  }

  lemma NackRead(server: U32, h: Header)
    ensures var ts := NackOptions(server);
      NoEnd(ts) && WireOf(h, ts).mtype == DHCPNAK && WireOf(h, ts).serverId == server
  {
    FirstMatchIs(NackOptions(server), OPT_MESSAGE_TYPE, 0);
    FirstMatchIs(NackOptions(server), OPT_SERVER_ID, 1);
    StoreLoad32(Big, server);
  }

  /** The server recovers what the client asked for. */
  lemma RequestRead(requestAddress: U32, serverAddress: U32, h: Header)
    ensures var ts := RequestOptions(requestAddress, serverAddress);
      var w := WireOf(h, ts);
      NoEnd(ts) && w.mtype == DHCPREQUEST && w.requestedIp == requestAddress && w.serverId == serverAddress
  {
    var ts := RequestOptions(requestAddress, serverAddress);
    FirstMatchIs(ts, OPT_MESSAGE_TYPE, 0);
    FirstMatchIs(ts, OPT_REQUESTED_IP, 2);
    FirstMatchIs(ts, OPT_SERVER_ID, 3);
    StoreLoad32(Big, requestAddress);
    StoreLoad32(Big, serverAddress);
  }

  lemma DiscoverRead(h: Header)
    ensures var ts := DiscoverOptions();
      NoEnd(ts) && WireOf(h, ts).mtype == DHCPDISCOVER && WireOf(h, ts).requestedIp == 0
  {
    var ts := DiscoverOptions();
    FirstMatchIs(ts, OPT_MESSAGE_TYPE, 0);
    FirstMatchIs(ts, OPT_REQUESTED_IP, 2);
  }

  /** Every message of the client lists the eight options it wants to know: subnet mask, router, DNS
      servers, broadcast address, lease time, T1, T2 and MTU (RFC 2132). */
  lemma ParametersListed(b: Built)
    requires FromFactory(b)
    ensures FirstMatch(b.options, 55) == Some([1, 3, 6, 28, 51, 58, 59, 26])
  {
    FirstMatchIs(b.options, 55, 1);
  }

  // ---------- what the client stores of any message ----------

  function HalfIn(ts: seq<Tlv>, code: Byte): U16 {
    match FirstMatch(ts, code)
    case None => 0
    case Some(v) => if |v| == 2 then Load16(Big, v) else 0
  }

  /** The k-th word of a list-valued option; zero when the list ends before. */
  function ListedIn(ts: seq<Tlv>, code: Byte, k: nat): U32 {
    match FirstMatch(ts, code)
    case None => 0
    case Some(v) => if 4 * k + 4 <= |v| then Load32(Big, v[4 * k..4 * k + 4]) else 0
  }

  lemma GovernedRead(ts: seq<Tlv>, code: Byte)
    requires UniqueCodes(ts)
    ensures var d := ApplyAll(ZERO_INFO, ts);
      && (code in {51, 58, 59, 1, 54} ==> Governed(d, code) == [WordIn(ts, code)])
      && (code == 26 ==> Governed(d, code) == [HalfIn(ts, code)])
      && (code == 3 ==> Governed(d, code) == [ListedIn(ts, code, 0)])
      && (code == 6 ==> Governed(d, code) ==
                        [ListedIn(ts, 6, 0), ListedIn(ts, 6, 1), ListedIn(ts, 6, 2), ListedIn(ts, 6, 3)])
  {
    ReadersAgree(ZERO_INFO, ts, code);
  }

  /** The whole record, option by option, for any list of options no two of which share a code: T1 is
      option 58, T2 option 59, the lease time 51, the MTU 26, the DNS servers 6, the gateway 3, the
      netmask 1 and the server 54 (RFC 2132); absent or of the wrong length they read as zero. */
  lemma InfoRead(ts: seq<Tlv>)
    requires UniqueCodes(ts)
    ensures ApplyAll(ZERO_INFO, ts) ==
            Info(WordIn(ts, 58), WordIn(ts, 59), WordIn(ts, 51), HalfIn(ts, 26),
                 [ListedIn(ts, 6, 0), ListedIn(ts, 6, 1), ListedIn(ts, 6, 2), ListedIn(ts, 6, 3)],
                 ListedIn(ts, 3, 0), WordIn(ts, 1), WordIn(ts, 54), 0)
  {
    GovernedRead(ts, 58);
    GovernedRead(ts, 59);
    GovernedRead(ts, 51);
    GovernedRead(ts, 26);
    GovernedRead(ts, 6);
    GovernedRead(ts, 3);
    GovernedRead(ts, 1);
    GovernedRead(ts, 54);
    OfferedAddressUntouched(ZERO_INFO, ts);
    OneWord(ApplyAll(ZERO_INFO, ts));
  }

  /** What the client's two senders build. */
  ghost predicate FromFactory(b: Built) {
    b.options == DiscoverOptions() ||
    exists requested, server :: b.options == RequestOptions(requested, server)
  }

  lemma EncodeCons(ts: seq<Tlv>)
    requires ts != []
    ensures |Encode(ts)| == 2 + |ts[0].value| + |Encode(ts[1..])|
  {
  }

  /** Every message the client builds has an even length: 254 or 266 bytes. */
  lemma ClientSizes(m: seq<Byte>, size: nat, b: Built)
    requires Complete(m, size, b.header, b.options) && FromFactory(b)
    ensures size == if b.options == DiscoverOptions() then 254 else 266
  {
    var ts := b.options;
    EncodeCons(ts);
    EncodeCons(ts[1..]);
    if |ts| == 2 {
      assert Encode(ts[1..][1..]) == [];
    } else {
      EncodeCons(ts[1..][1..]);
      EncodeCons(ts[1..][1..][1..]);
      assert Encode(ts[1..][1..][1..][1..]) == [];
    }
  }

  // ---------- what one write does to the built form ----------

  /** Overwriting `m` with `b` from index `at` on. */
  function Overwritten(m: seq<Byte>, at: nat, b: seq<Byte>): (m': seq<Byte>)
    requires at + |b| <= |m|
    ensures |m'| == |m|
  {
    m[..at] + b + m[at + |b|..]
  }

  lemma Slices(m: seq<Byte>, at: nat, b: seq<Byte>)
    requires at + |b| <= |m|
    ensures var m' := Overwritten(m, at, b);
      && m'[at..at + |b|] == b
      && (forall i, j :: 0 <= i <= j <= at ==> m'[i..j] == m[i..j])
      && (forall i, j :: at + |b| <= i <= j <= |m| ==> m'[i..j] == m[i..j])
      && (forall i :: 0 <= i < at || at + |b| <= i < |m| ==> m'[i] == m[i])
  {
  }

  lemma WritesJoin(m: seq<Byte>, at: nat, a: seq<Byte>, b: seq<Byte>)
    requires at + |a| + |b| <= |m|
    ensures Overwritten(Overwritten(m, at, a), at + |a|, b) == Overwritten(m, at, a + b)
  {
  }

  lemma SetXid(m: seq<Byte>, h: Header, xid: U32)
    requires |m| == MEMORY && HeaderIs(m, h)
    ensures HeaderIs(Overwritten(m, 4, Store32(Big, xid)), h.(xid := xid))
  {
    Slices(m, 4, Store32(Big, xid));
  }

  lemma SetFlags(m: seq<Byte>, h: Header, flags: U16)
    requires |m| == MEMORY && HeaderIs(m, h)
    ensures HeaderIs(Overwritten(m, 10, Store16(Big, flags)), h.(flags := flags))
  {
    Slices(m, 10, Store16(Big, flags));
  }

  lemma SetYiaddr(m: seq<Byte>, h: Header, yiaddr: U32)
    requires |m| == MEMORY && HeaderIs(m, h)
    ensures HeaderIs(Overwritten(m, 16, Store32(Big, yiaddr)), h.(yiaddr := yiaddr))
  {
    Slices(m, 16, Store32(Big, yiaddr));
  }

  lemma SetGiaddr(m: seq<Byte>, h: Header, giaddr: U32)
    requires |m| == MEMORY && HeaderIs(m, h)
    ensures HeaderIs(Overwritten(m, 24, Store32(Big, giaddr)), h.(giaddr := giaddr))
  {
    Slices(m, 24, Store32(Big, giaddr));
  }

  lemma SetMac(m: seq<Byte>, h: Header, mac: Mac)
    requires |m| == MEMORY && HeaderIs(m, h)
    ensures HeaderIs(Overwritten(m, 28, mac), h.(mac := mac))
  {
    Slices(m, 28, mac);
  }

  /** The writes of the builder constructor, in its order, on a zeroed struct. */
  lemma FreshlyBuilt(m0: seq<Byte>, op: Byte, mac: Mac, kind: Byte, xid: U32)
    requires |m0| == MEMORY && m0[..CAPACITY] == Zeros(CAPACITY)
    ensures var m1 := Overwritten(m0, 0, [op, HTYPE_ETHER, ETH_ALEN, 0]);
      var m2 := Overwritten(m1, 10, Store16(Big, FLAGS_BROADCAST));
      var m3 := Overwritten(m2, 4, Store32(Big, xid));
      var m4 := Overwritten(m3, 28, mac);
      var m5 := Overwritten(m4, OPTIONS, COOKIE + [OPT_MESSAGE_TYPE, 1, kind]);
      Open(m5, OPTIONS + 7, Header(op, xid, FLAGS_BROADCAST, 0, 0, mac), [Tlv(OPT_MESSAGE_TYPE, [kind])])
  {
    var h := Header(op, 0, 0, 0, 0, [0, 0, 0, 0, 0, 0]);
    var m1 := Overwritten(m0, 0, [op, HTYPE_ETHER, ETH_ALEN, 0]);
    EmptyHeader(m0, op);
    SetFlags(m1, h, FLAGS_BROADCAST);
    var m2 := Overwritten(m1, 10, Store16(Big, FLAGS_BROADCAST));
    SetXid(m2, h.(flags := FLAGS_BROADCAST), xid);
    var m3 := Overwritten(m2, 4, Store32(Big, xid));
    SetMac(m3, h.(flags := FLAGS_BROADCAST, xid := xid), mac);
    FirstOption(Overwritten(m3, 28, mac), Header(op, xid, FLAGS_BROADCAST, 0, 0, mac), kind);
  }

  lemma EmptyHeader(m: seq<Byte>, op: Byte)
    requires |m| == MEMORY && m[..CAPACITY] == Zeros(CAPACITY)
    ensures HeaderIs(Overwritten(m, 0, [op, HTYPE_ETHER, ETH_ALEN, 0]), Header(op, 0, 0, 0, 0, [0, 0, 0, 0, 0, 0]))
  {
    assert forall k :: 0 <= k < CAPACITY ==> m[k] == m[..CAPACITY][k] == 0;
    var m' := Overwritten(m, 0, [op, HTYPE_ETHER, ETH_ALEN, 0]);
    Slices(m, 0, [op, HTYPE_ETHER, ETH_ALEN, 0]);
    assert m'[4..8] == Store32(Big, 0) == [0, 0, 0, 0];
    assert m'[10..12] == Store16(Big, 0) == [0, 0];
    assert m'[16..20] == Store32(Big, 0) == [0, 0, 0, 0];
  }

  lemma FirstOption(m: seq<Byte>, h: Header, kind: Byte)
    requires |m| == MEMORY && HeaderIs(m, h)
    ensures Open(Overwritten(m, OPTIONS, COOKIE + [OPT_MESSAGE_TYPE, 1, kind]), OPTIONS + 7, h,
                 [Tlv(OPT_MESSAGE_TYPE, [kind])])
  {
    var tail, t := COOKIE + [OPT_MESSAGE_TYPE, 1, kind], Tlv(OPT_MESSAGE_TYPE, [kind]);
    Slices(m, OPTIONS, tail);
    var m' := Overwritten(m, OPTIONS, tail);
    assert Encode([t]) == EncodeOne(t) + Encode([]) == [OPT_MESSAGE_TYPE, 1, kind];
    assert m'[OPTIONS..OPTIONS + 4] == m'[OPTIONS..OPTIONS + 7][..4] == COOKIE;
    assert m'[OPTIONS + 4..OPTIONS + 7] == m'[OPTIONS..OPTIONS + 7][4..];
  }

  lemma AppendOption(m: seq<Byte>, size: nat, h: Header, ts: seq<Tlv>, t: Tlv)
    requires Open(m, size, h, ts) && size + 2 + |t.value| <= CAPACITY
    ensures Open(Overwritten(m, size, EncodeOne(t)), size + 2 + |t.value|, h, ts + [t])
  {
    var m' := Overwritten(m, size, EncodeOne(t));
    Slices(m, size, EncodeOne(t));
    EncodeAppend(ts, t);
    assert m'[OPTIONS + 4..size + 2 + |t.value|] == m'[OPTIONS + 4..size] + m'[size..size + 2 + |t.value|];
  }

  lemma CloseOptions(m: seq<Byte>, size: nat, h: Header, ts: seq<Tlv>)
    requires Open(m, size, h, ts) && size < CAPACITY
    ensures Complete(Overwritten(m, size, [OPT_END]), size + 1, h, ts)
  {
    Slices(m, size, [OPT_END]);
  }

  /** The reply factories overwrite three or four header fields; the options stay. */
  lemma Echo(m: seq<Byte>, size: nat, h: Header, ts: seq<Tlv>, to: Wire, yiaddr: U32)
    requires Open(m, size, h, ts)
    ensures var m1 := Overwritten(m, 4, Store32(Big, to.xid));
      var m2 := Overwritten(m1, 10, Store16(Big, to.flags));
      var m3 := Overwritten(m2, 16, Store32(Big, yiaddr));
      var m4 := Overwritten(m3, 24, Store32(Big, to.giaddr));
      Open(m4, size, h.(xid := to.xid, flags := to.flags, yiaddr := yiaddr, giaddr := to.giaddr), ts)
  {
    var h1 := h.(xid := to.xid);
    var h2 := h1.(flags := to.flags);
    var h3 := h2.(yiaddr := yiaddr);
    var m1 := Overwritten(m, 4, Store32(Big, to.xid));
    var m2 := Overwritten(m1, 10, Store16(Big, to.flags));
    var m3 := Overwritten(m2, 16, Store32(Big, yiaddr));
    SetXid(m, h, to.xid);
    SetFlags(m1, h1, to.flags);
    SetYiaddr(m2, h2, yiaddr);
    SetGiaddr(m3, h3, to.giaddr);
    SameTail(m, 4, Store32(Big, to.xid));
    SameTail(m1, 10, Store16(Big, to.flags));
    SameTail(m2, 16, Store32(Big, yiaddr));
    SameTail(m3, 24, Store32(Big, to.giaddr));
  }

  lemma FieldBytes(m: seq<Byte>, size: nat)
    requires |m| == MEMORY && size <= CAPACITY
    ensures var w := Decode(m, size);
      && m[4..8] == Store32(Big, w.xid) && m[10..12] == Store16(Big, w.flags)
      && m[24..28] == Store32(Big, w.giaddr) && m[28..34] == w.mac
  {
    LoadStore32(Big, m[4..8]);
    LoadStore16(Big, m[10..12]);
    LoadStore32(Big, m[24..28]);
  }

  lemma SameTail(m: seq<Byte>, at: nat, b: seq<Byte>)
    requires at + |b| <= OPTIONS <= |m|
    ensures forall i, j :: OPTIONS <= i <= j <= |m| ==> Overwritten(m, at, b)[i..j] == m[i..j]
  {
    Slices(m, at, b);
  }

  lemma Prefixes(ts: seq<Tlv>)
    ensures forall k :: 0 <= k < |ts| ==> ts[..k + 1] == ts[..k] + [ts[k]]
    ensures |ts| > 0 ==> ts[..1] == [ts[0]]
    ensures ts[..|ts|] == ts
  {
  }

  // ---------- the buffer ----------

  class Message {
    const mem: array<Byte>
    var mSize: nat

    ghost predicate Valid()
      reads this
    {
      mem.Length == MEMORY && mSize <= CAPACITY
    }

    /** The zeroed message; `rest` is whatever follows the struct in memory. */
    constructor (rest: seq<Byte>)
      requires |rest| == MEMORY - CAPACITY
      ensures Valid() && fresh(mem) && mSize == 0
      ensures mem[..] == Zeros(CAPACITY) + rest
    {
      mem := new Byte[MEMORY](i requires 0 <= i < MEMORY =>
        if i < CAPACITY then 0 else rest[i - CAPACITY]);
      mSize := 0;
    }

    /** The builder constructor. The transaction id is the process's counter before its increment. */
    constructor Build(operation: Byte, mac: Mac, kind: Byte, xid: U32, rest: seq<Byte>)
      requires |rest| == MEMORY - CAPACITY
      ensures Valid() && fresh(mem) && mSize == OPTIONS + 7
      ensures Open(mem[..], mSize, Header(operation, xid, FLAGS_BROADCAST, 0, 0, mac), [Tlv(OPT_MESSAGE_TYPE, [kind])])
    {
      mem := new Byte[MEMORY](i requires 0 <= i < MEMORY =>
        if i < CAPACITY then 0 else rest[i - CAPACITY]);
      mSize := 0;
      new;
      FreshlyBuilt(mem[..], operation, mac, kind, xid);
      Put(0, [operation, HTYPE_ETHER, ETH_ALEN, 0]);
      Put(10, Store16(Big, FLAGS_BROADCAST));
      Put(4, Store32(Big, xid));
      Put(28, mac);
      WritesJoin(mem[..], OPTIONS, COOKIE, [OPT_MESSAGE_TYPE, 1, kind]);
      Put(OPTIONS, COOKIE);
      Put(OPTIONS + 4, [OPT_MESSAGE_TYPE, 1, kind]);
      mSize := OPTIONS + 7;
    }

    /** memcpy into the struct. */
    method Put(at: nat, bytes: seq<Byte>)
      requires mem.Length == MEMORY && at + |bytes| <= CAPACITY
      modifies mem
      ensures mem[..] == Overwritten(old(mem[..]), at, bytes)
    {
      var k := 0;
      while k < |bytes|
        invariant 0 <= k <= |bytes|
        invariant forall j :: 0 <= j < at ==> mem[j] == old(mem[j])
        invariant forall j :: 0 <= j < k ==> mem[at + j] == bytes[j]
        invariant forall j :: at + k <= j < MEMORY ==> mem[j] == old(mem[j])
      {
        mem[at + k] := bytes[k];
        k := k + 1;
      }
    }

    /** addOption: no bounds check, so the caller leaves room. */
    method AddOption(code: Byte, value: Value, ghost h: Header, ghost ts: seq<Tlv>)
      requires Valid() && mSize + 2 + |value| <= CAPACITY
      modifies this`mSize, mem
      ensures Valid() && mSize == old(mSize) + 2 + |value|
      ensures mem[..] == Overwritten(old(mem[..]), old(mSize), EncodeOne(Tlv(code, value)))
      ensures Open(old(mem[..]), old(mSize), h, ts) ==> Open(mem[..], mSize, h, ts + [Tlv(code, value)])
    {
      WritesJoin(mem[..], mSize, [code, |value|], value);
      Put(mSize, [code, |value|]);
      Put(mSize + 2, value);
      mSize := mSize + 2 + |value|;
      if Open(old(mem[..]), old(mSize), h, ts) {
        AppendOption(old(mem[..]), old(mSize), h, ts, Tlv(code, value));
      }
    }

    /** The array form of addOption copies item by item. */
    method AddOptionItems(code: Byte, items: Value, ghost h: Header, ghost ts: seq<Tlv>)
      requires Valid() && mSize + 2 + |items| <= CAPACITY
      modifies this`mSize, mem
      ensures Valid() && mSize == old(mSize) + 2 + |items|
      ensures mem[..] == Overwritten(old(mem[..]), old(mSize), EncodeOne(Tlv(code, items)))
      ensures Open(old(mem[..]), old(mSize), h, ts) ==> Open(mem[..], mSize, h, ts + [Tlv(code, items)])
    {
      ghost var m, at := mem[..], mSize;
      Put(mSize, [code, |items|]);
      var opts := mSize + 2;
      for k := 0 to |items|
        invariant mSize == at && opts == at + 2 + k
        invariant mem[..] == Overwritten(m, at, [code, |items|] + items[..k])
      {
        WritesJoin(m, at, [code, |items|] + items[..k], [items[k]]);
        assert [code, |items|] + items[..k] + [items[k]] == [code, |items|] + items[..k + 1];
        Put(opts, [items[k]]);
        opts := opts + 1;
      }
      assert items[..|items|] == items;
      mSize := opts;
      if Open(old(mem[..]), old(mSize), h, ts) {
        AppendOption(old(mem[..]), old(mSize), h, ts, Tlv(code, items));
      }
    }

    method EndOptions(ghost h: Header, ghost ts: seq<Tlv>)
      requires Valid() && mSize + 1 <= CAPACITY
      modifies this`mSize, mem
      ensures Valid() && mSize == old(mSize) + 1
      ensures mem[..] == Overwritten(old(mem[..]), old(mSize), [OPT_END])
      ensures Open(old(mem[..]), old(mSize), h, ts) ==> Complete(mem[..], mSize, h, ts)
    {
      Put(mSize, [OPT_END]);
      mSize := mSize + 1;
      if Open(old(mem[..]), old(mSize), h, ts) {
        CloseOptions(old(mem[..]), old(mSize), h, ts);
      }
    }

    /** Position of the value of the first option with this code; its length is the byte before. */
    method GetOption(expected: Byte) returns (opt: Option<nat>)
      requires Valid()
      ensures opt == FindOption(mem[OPTIONS..], OptionsSize(mSize), 4, expected)
    {
      var optsSize := OptionsSize(mSize);
      var i: nat := 4;
      ghost var o := mem[OPTIONS..];
      while i + 2 < optsSize
        invariant i >= 4
        invariant FindOption(o, optsSize, i, expected) == FindOption(o, optsSize, 4, expected)
        decreases optsSize - i
      {
        var optCode, optLen: nat := mem[OPTIONS + i], mem[OPTIONS + i + 1];
        assert o[i] == optCode && o[i + 1] == optLen;
        if optCode == OPT_END {
          return None;
        }
        if optCode == expected {
          return Some(i + 2);
        }
        i := i + 2 + optLen;
      }
      return None;
    }

    method Type() returns (r: Byte)
      requires Valid()
      ensures r == Decode(mem[..], mSize).mtype
    {
      assert mem[..][OPTIONS..] == mem[OPTIONS..];
      var opt := GetOption(OPT_MESSAGE_TYPE);
      if opt.Some? && mem[OPTIONS + opt.value - 1] == 1 {
        return mem[OPTIONS + opt.value];
      }
      return 0;
    }

    method ServerId() returns (r: U32)
      requires Valid()
      ensures r == Decode(mem[..], mSize).serverId
    {
      assert mem[..][OPTIONS..] == mem[OPTIONS..];
      var opt := GetOption(OPT_SERVER_ID);
      if opt.Some? && mem[OPTIONS + opt.value - 1] == 4 {
        assert mem[OPTIONS..][opt.value..opt.value + 4] == mem[OPTIONS + opt.value..OPTIONS + opt.value + 4];
        return ReadWord(OPTIONS + opt.value);
      }
      return 0;
    }

    method RequestedIp() returns (r: U32)
      requires Valid()
      ensures r == Decode(mem[..], mSize).requestedIp
    {
      assert mem[..][OPTIONS..] == mem[OPTIONS..];
      var opt := GetOption(OPT_REQUESTED_IP);
      if opt.Some? && mem[OPTIONS + opt.value - 1] == 4 {
        assert mem[OPTIONS..][opt.value..opt.value + 4] == mem[OPTIONS + opt.value..OPTIONS + opt.value + 4];
        return ReadWord(OPTIONS + opt.value);
      }
      return 0;
    }

    function ReadWord(at: nat): U32
      requires at + 4 <= mem.Length
      reads mem
    {
      Load32(Big, mem[at..at + 4])
    }

    method IsValidDhcpMessage(expectedOp: Byte) returns (r: bool)
      requires Valid()
      ensures r == (Decode(mem[..], mSize).wellFormed && Decode(mem[..], mSize).op == expectedOp)
    {
      if OPTIONS + 4 > mSize {
        return false;
      }
      if mem[0] != expectedOp || mem[1] != HTYPE_ETHER || mem[2] != ETH_ALEN {
        return false;
      }
      assert mem[..][OPTIONS..OPTIONS + 4] ==
             [mem[OPTIONS], mem[OPTIONS + 1], mem[OPTIONS + 2], mem[OPTIONS + 3]];
      if mem[OPTIONS] != COOKIE[0] || mem[OPTIONS + 1] != COOKIE[1] ||
         mem[OPTIONS + 2] != COOKIE[2] || mem[OPTIONS + 3] != COOKIE[3] {
        return false;
      }
      return true;
    }

    // ---------- factories ----------

    static method Discover(mac: Mac, xid: U32, rest: seq<Byte>) returns (m: Message)
      requires |rest| == MEMORY - CAPACITY
      ensures fresh(m) && fresh(m.mem) && m.Valid()
      ensures Complete(m.mem[..], m.mSize, FromClient(mac, xid), DiscoverOptions())
    {
      m := new Message.Build(OP_BOOTREQUEST, mac, DHCPDISCOVER, xid, rest);
      ghost var h, ts := FromClient(mac, xid), DiscoverOptions();
      assert ts[..1] == [ts[0]] && ts[..1] + [ts[1]] == ts;
      m.AddOptionItems(OPT_PARAMETER_LIST, REQUEST_PARAMETERS, h, ts[..1]);
      m.EndOptions(h, ts);
    }

    static method Request(mac: Mac, xid: U32, requestAddress: U32, serverAddress: U32, rest: seq<Byte>)
      returns (m: Message)
      requires |rest| == MEMORY - CAPACITY
      ensures fresh(m) && fresh(m.mem) && m.Valid()
      ensures Complete(m.mem[..], m.mSize, FromClient(mac, xid), RequestOptions(requestAddress, serverAddress))
    {
      ghost var h, ts := FromClient(mac, xid), RequestOptions(requestAddress, serverAddress);
      Prefixes(ts);
      m := new Message.Build(OP_BOOTREQUEST, mac, DHCPREQUEST, xid, rest);
      m.AddOptionItems(OPT_PARAMETER_LIST, REQUEST_PARAMETERS, h, ts[..1]);
      m.AddOption(OPT_REQUESTED_IP, Store32(Big, requestAddress), h, ts[..2]);
      m.AddOption(OPT_SERVER_ID, Store32(Big, serverAddress), h, ts[..3]);
      m.EndOptions(h, ts[..4]);
    }

    /** What offer, ack and nack share: the builder constructor, then the echoed fields of `source`. */
    static method ReplyTo(source: Message, kind: Byte, yiaddr: U32, xid: U32, rest: seq<Byte>)
      returns (m: Message)
      requires |rest| == MEMORY - CAPACITY && source.Valid()
      ensures fresh(m) && fresh(m.mem) && m.Valid() && m.mSize == OPTIONS + 7
      ensures Open(m.mem[..], m.mSize, Reply(Decode(source.mem[..], source.mSize), yiaddr),
                   [Tlv(OPT_MESSAGE_TYPE, [kind])])
    {
      ghost var to := Decode(source.mem[..], source.mSize);
      var macAddress := source.mem[28..34];
      m := new Message.Build(OP_BOOTREPLY, macAddress, kind, xid, rest);
      Echo(m.mem[..], m.mSize, Header(OP_BOOTREPLY, xid, FLAGS_BROADCAST, 0, 0, to.mac),
           [Tlv(OPT_MESSAGE_TYPE, [kind])], to, yiaddr);
      FieldBytes(source.mem[..], source.mSize);
      m.Put(4, source.mem[4..8]);
      m.Put(10, source.mem[10..12]);
      m.Put(16, Store32(Big, yiaddr));
      m.Put(24, source.mem[24..28]);
    }

    /** The two options of an offer or ack before them. */
    method AddLease(serverAddress: U32, e: Endian, ghost h: Header, ghost ts: seq<Tlv>)
      requires Valid() && mSize <= 300
      modifies this`mSize, mem
      ensures Valid() && mSize == old(mSize) + 12
      ensures Open(old(mem[..]), old(mSize), h, ts) ==>
                Open(mem[..], mSize, h, ts + LeaseOptions(serverAddress, e))
    {
      ghost var ls := LeaseOptions(serverAddress, e);
      AddOption(OPT_SERVER_ID, Store32(Big, serverAddress), h, ts);
      AddOption(OPT_LEASE_TIME, Store32(e, DEFAULT_LEASE_TIME), h, ts + [ls[0]]);
      assert ts + [ls[0]] + [ls[1]] == ts + ls;
    }

    /** The last three options of an offer or ack. */
    method AddNetwork(netmask: U32, gateway: U32, dns: seq<U32>, ghost h: Header, ghost ts: seq<Tlv>)
      requires Valid() && mSize <= 300
      modifies this`mSize, mem
      ensures Valid() && mSize <= old(mSize) + 6 + 6 + 2 + 255
      ensures Open(old(mem[..]), old(mSize), h, ts) ==>
                Open(mem[..], mSize, h, ts + NetworkOptions(netmask, gateway, dns))
    {
      ghost var ns := NetworkOptions(netmask, gateway, dns);
      AddOption(OPT_SUBNET_MASK, Store32(Big, netmask), h, ts);
      AddOption(OPT_GATEWAY, Store32(Big, gateway), h, ts + [ns[0]]);
      AddOption(OPT_DNS, DnsValue(dns), h, ts + [ns[0]] + [ns[1]]);
      assert ts + [ns[0]] + [ns[1]] + [ns[2]] == ts + ns;
    }

    /** Message::offer and Message::ack, which differ in the message type only. */
    static method Grant(kind: Byte, source: Message, serverAddress: U32, offeredAddress: U32, netmask: U32,
                        gateway: U32, dns: seq<U32>, e: Endian, xid: U32, rest: seq<Byte>)
      returns (m: Message)
      requires |rest| == MEMORY - CAPACITY && source.Valid()
      ensures fresh(m) && fresh(m.mem) && m.Valid()
      ensures Complete(m.mem[..], m.mSize, Reply(Decode(source.mem[..], source.mSize), offeredAddress),
                       GrantOptions(kind, e, serverAddress, netmask, gateway, dns))
    {
      ghost var h := Reply(Decode(source.mem[..], source.mSize), offeredAddress);
      ghost var ts := GrantOptions(kind, e, serverAddress, netmask, gateway, dns);
      Prefixes(ts);
      m := ReplyTo(source, kind, offeredAddress, xid, rest);
      m.AddLease(serverAddress, e, h, ts[..1]);
      assert ts[..1] + LeaseOptions(serverAddress, e) == ts[..3];
      m.AddNetwork(netmask, gateway, dns, h, ts[..3]);
      assert ts[..3] + NetworkOptions(netmask, gateway, dns) == ts;
      m.EndOptions(h, ts);
    }

    static method Nack(source: Message, serverAddress: U32, xid: U32, rest: seq<Byte>) returns (m: Message)
      requires |rest| == MEMORY - CAPACITY && source.Valid()
      ensures fresh(m) && fresh(m.mem) && m.Valid()
      ensures Complete(m.mem[..], m.mSize, Reply(Decode(source.mem[..], source.mSize), 0), NackOptions(serverAddress))
    {
      ghost var h, ts := Reply(Decode(source.mem[..], source.mSize), 0), NackOptions(serverAddress);
      Prefixes(ts);
      m := ReplyTo(source, DHCPNAK, 0, xid, rest);
      m.AddOption(OPT_SERVER_ID, Store32(Big, serverAddress), h, ts[..1]);
      m.EndOptions(h, ts[..2]);
    }
  }

  /** The message sent, if any, carries exactly what was to be built. */
  ghost predicate Carries(sent: Option<Message>, b: Option<Built>)
    reads if sent.Some? then {sent.value, sent.value.mem} else {}
  {
    match sent
    case None => b == None
    case Some(m) => && b.Some? && m.Valid()
                    && Complete(m.mem[..], m.mSize, b.value.header, b.value.options)
  }
}
