/** The DHCP server: dispatch of one message, and what holds over whole runs. */
module Server {
  import opened Words
  import opened Dhcp
  import opened LeaseAllocator
  import opened DhcpMessage
  import Bits
  import Codec

  /** Everything the handling of one message reads from outside: the ioctl results of its first and
      second address lookup and of the interface address, and the four DNS properties. */
  datatype Outside = Outside(validate: IfConfig, offer: IfConfig, self: Option<U32>, dns: DnsProperties)

  type DnsProperties = s: seq<Option<U32>> | |s| == 4 witness [None, None, None, None]

  function DnsServers(properties: seq<Option<U32>>): (r: seq<U32>)
    ensures |r| <= |properties|
  {
    if properties == [] then []
    else (match properties[0] case None => [] case Some(a) => [a]) + DnsServers(properties[1..])
  }

  // ---------- the dispatch as a function ----------

  function GrantFor(kind: Byte, e: Endian, t: Table, w: Wire, key: Lease, io: Outside): (Table, Option<Built>) {
    var (t', o) := LeaseAllocator.GetOfferAddress(t, key, io.offer);
    if o.None? || io.self.None? then (t', None)
    else (t', Some(Built(Reply(w, o.value.address),
                         GrantOptions(kind, e, io.self.value, o.value.netmask, o.value.gateway, DnsServers(io.dns)))))
  }

  function NackFor(t: Table, w: Wire, io: Outside): (Table, Option<Built>) {
    if io.self.None? then (t, None) else (t, Some(Built(Reply(w, 0), NackOptions(io.self.value))))
  }

  function Respond(e: Endian, excluded: U32, t: Table, w: Wire, interfaceIndex: U32, io: Outside)
    : (Table, Option<Built>)
  {
    var key := Lease(interfaceIndex, w.mac);
    if interfaceIndex == 0 || interfaceIndex == excluded || !w.wellFormed || w.op != OP_BOOTREQUEST then (t, None)
    else if w.mtype == DHCPDISCOVER then GrantFor(DHCPOFFER, e, t, w, key, io)
    else if w.mtype == DHCPREQUEST then
      var (t', o) := LeaseAllocator.GetOfferAddress(t, key, io.validate);
      if o.Some? && w.requestedIp == o.value.address then GrantFor(DHCPACK, e, t', w, key, io)
      else NackFor(t', w, io)
    else (t, None)
  }

  // ---------- the server object ----------

  class DhcpServer {
    const endian: Endian
    const mExcludeInterface: U32
    var mLeases: map<Lease, U32>
    var mNextAddressOffsets: map<U32, U32>
    var mDnsServers: seq<U32>

    function State(): Table
      reads this
    {
      Table(mLeases, mNextAddressOffsets)
    }

    constructor (endian: Endian, excludeInterface: U32)
      ensures State() == EMPTY_TABLE
    {
      this.endian, mExcludeInterface := endian, excludeInterface;
      mLeases, mNextAddressOffsets, mDnsServers := map[], map[], [];
    }

    /** The part of getOfferAddress that serves a client without a lease. */
    method Allocate(key: Lease, interfaceAddress: U32, mask: U32) returns (value: Option<U32>)
      requires LeaseOf(State(), key) == 0
      modifies this`mLeases, this`mNextAddressOffsets
      ensures (State(), value) == LeaseAllocator.Allocate(old(State()), key, interfaceAddress, mask)
    {
      var i := key.interfaceIndex;
      mLeases := mLeases[key := 0];
      var offset: U32 := OffsetOf(State(), i);
      if offset == 0 {
        offset := offset + 1;
      }
      ghost var start := SearchStart(OffsetOf(old(State()), i), interfaceAddress, mask);
      ghost var target := Scan(start, offset, interfaceAddress, mask);
      var nextAddress: U32 := (Bits.And(interfaceAddress, mask) + offset) % TWO_32;
      while !IsValidHost(nextAddress, interfaceAddress, mask) &&
            AddressInRange(nextAddress, interfaceAddress, mask)
        invariant Scan(nextAddress, offset, interfaceAddress, mask) == target
        decreases TWO_32 - nextAddress
      {
        nextAddress := nextAddress + 1;
        offset := (offset + 1) % TWO_32;
      }
      if AddressInRange(nextAddress, interfaceAddress, mask) {
        mLeases := mLeases[key := nextAddress];
        mNextAddressOffsets := mNextAddressOffsets[i := (offset + 1) % TWO_32];
        assert mLeases == old(mLeases)[key := nextAddress];
        return Some(nextAddress);
      } else {
        mNextAddressOffsets := mNextAddressOffsets[i := offset];
        return None;
      }
    }

    method GetOfferAddress(interfaceIndex: U32, macAddress: Mac, cfg: IfConfig) returns (r: Option<Offer>)
      modifies this`mLeases, this`mNextAddressOffsets
      ensures (State(), r) == LeaseAllocator.GetOfferAddress(old(State()), Lease(interfaceIndex, macAddress), cfg)
    {
      if cfg.address.None? {
        return None;
      }
      var interfaceAddress := cfg.address.value;
      if cfg.netmask.None? {
        return None;
      }
      var mask := cfg.netmask.value;
      var key := Lease(interfaceIndex, macAddress);
      var value := LeaseOf(State(), key);
      if value == 0 {
        var found := Allocate(key, interfaceAddress, mask);
        if found.None? {
          return None;
        }
        value := found.value;
      }
      return Some(Offer(value, mask, interfaceAddress));
    }

    method UpdateDnsServers(properties: DnsProperties)
      modifies this`mDnsServers
      ensures mDnsServers == DnsServers(properties)
    {
      mDnsServers := [];
      for i := 0 to 4
        invariant mDnsServers + DnsServers(properties[i..]) == DnsServers(properties)
      {
        if properties[i].Some? {
          mDnsServers := mDnsServers + [properties[i].value];
        }
      }
    }

    /** sendDhcpOffer and sendAck, which differ in the message type only; None is "nothing sent". */
    method SendGrant(kind: Byte, message: Message, interfaceIndex: U32, io: Outside,
                     xid: U32, rest: seq<Byte>)
      returns (sent: Option<Message>)
      requires message.Valid() && |rest| == MEMORY - CAPACITY
      modifies this
      ensures var w := Decode(message.mem[..], message.mSize);
        var (t', b) := GrantFor(kind, endian, old(State()), w, Lease(interfaceIndex, w.mac), io);
        State() == t' && Carries(sent, b)
    {
      UpdateDnsServers(io.dns);
      var offer := GetOfferAddress(interfaceIndex, message.mem[28..34], io.offer);
      assert message.mem[..][28..34] == message.mem[28..34];
      if offer.None? || io.self.None? {
        return None;
      }
      var m := Message.Grant(kind, message, io.self.value, offer.value.address, offer.value.netmask,
                                     offer.value.gateway, mDnsServers, endian, xid, rest);
      return Some(m);
    }

    method SendNack(message: Message, io: Outside, xid: U32, rest: seq<Byte>)
      returns (sent: Option<Message>)
      requires message.Valid() && |rest| == MEMORY - CAPACITY
      ensures Carries(sent, NackFor(State(), Decode(message.mem[..], message.mSize), io).1)
    {
      if io.self.None? {
        return None;
      }
      var m := Message.Nack(message, io.self.value, xid, rest);
      return Some(m);
    }

    method IsValidDhcpRequest(message: Message, interfaceIndex: U32, cfg: IfConfig) returns (r: bool)
      requires message.Valid()
      modifies this`mLeases, this`mNextAddressOffsets
      ensures var w := Decode(message.mem[..], message.mSize);
        var (t', o) := LeaseAllocator.GetOfferAddress(old(State()), Lease(interfaceIndex, w.mac), cfg);
        State() == t' && r == (o.Some? && w.requestedIp == o.value.address)
    {
      assert message.mem[..][28..34] == message.mem[28..34];
      var offer := GetOfferAddress(interfaceIndex, message.mem[28..34], cfg);
      if offer.None? {
        return false;
      }
      var requested := message.RequestedIp();
      return requested == offer.value.address;
    }

    /** One round of the loop in run, after a message has been received on an interface. */
    method Handle(message: Message, interfaceIndex: U32, io: Outside, xid: U32, rest: seq<Byte>)
      returns (sent: Option<Message>)
      requires message.Valid() && |rest| == MEMORY - CAPACITY
      modifies this
      ensures var w := Decode(message.mem[..], message.mSize);
        var (t', b) := Respond(endian, mExcludeInterface, old(State()), w, interfaceIndex, io);
        State() == t' && Carries(sent, b)
    {
      if interfaceIndex == 0 || mExcludeInterface == interfaceIndex {
        return None;
      }
      var valid := message.IsValidDhcpMessage(OP_BOOTREQUEST);
      if !valid {
        return None;
      }
      var kind := message.Type();
      if kind == DHCPDISCOVER {
        sent := SendGrant(DHCPOFFER, message, interfaceIndex, io, xid, rest);
      } else if kind == DHCPREQUEST {
        var ok := IsValidDhcpRequest(message, interfaceIndex, io.validate);
        if ok {
          sent := SendGrant(DHCPACK, message, interfaceIndex, io, xid, rest);
        } else {
          sent := SendNack(message, io, xid, rest);
        }
      } else {
        return None;
      }
    }
  }

  // ---------- whole runs ----------

  datatype Event = Event(w: Wire, interfaceIndex: U32, io: Outside)

  datatype Sent = Sent(interfaceIndex: U32, request: Wire, reply: Wire)

  /** The final lease table and everything sent, in order, over a run of received messages. */
  function Serve(e: Endian, excluded: U32, t: Table, events: seq<Event>): (Table, seq<Sent>)
    decreases |events|
  {
    if events == [] then (t, [])
    else
      var v := events[0];
      var (t', b) := Respond(e, excluded, t, v.w, v.interfaceIndex, v.io);
      var (t'', rest) := Serve(e, excluded, t', events[1..]);
      (t'', if b.Some? then [Sent(v.interfaceIndex, v.w, OnWire(b.value))] + rest else rest)
  }

  predicate IsGrant(reply: Wire) {
    reply.mtype == DHCPOFFER || reply.mtype == DHCPACK
  }

  /** What one reply says about the request it answers and the lease table behind it. */
  ghost predicate Faithful(s: Sent, t: Table) {
    && s.reply.wellFormed && s.reply.op == OP_BOOTREPLY
    && s.reply.xid == s.request.xid && s.reply.mac == s.request.mac
    && s.reply.flags == s.request.flags && s.reply.giaddr == s.request.giaddr
    && s.reply.mtype in {DHCPOFFER, DHCPACK, DHCPNAK}
    && (IsGrant(s.reply) ==> s.reply.yiaddr == LeaseOf(t, Lease(s.interfaceIndex, s.request.mac)) != 0)
    && (s.reply.mtype == DHCPACK ==> s.request.mtype == DHCPREQUEST && s.reply.yiaddr == s.request.requestedIp)
    && (s.reply.mtype == DHCPOFFER ==> s.request.mtype == DHCPDISCOVER)
    && (s.reply.mtype == DHCPNAK ==> s.request.mtype == DHCPREQUEST && s.reply.yiaddr == 0)
  }

  lemma GrantFaithful(kind: Byte, e: Endian, t: Table, w: Wire, interfaceIndex: U32, io: Outside)
    requires (kind == DHCPOFFER && w.mtype == DHCPDISCOVER) ||
             (kind == DHCPACK && w.mtype == DHCPREQUEST
              && w.requestedIp == LeaseOf(t, Lease(interfaceIndex, w.mac)) != 0)
    ensures var (t', b) := GrantFor(kind, e, t, w, Lease(interfaceIndex, w.mac), io);
      && (b.Some? ==> Faithful(Sent(interfaceIndex, w, OnWire(b.value)), t') && Codec.NoEnd(b.value.options))
      && (forall l: Lease :: LeaseOf(t, l) != 0 ==> LeaseOf(t', l) == LeaseOf(t, l))
  {
    var key := Lease(interfaceIndex, w.mac);
    LookupFrame(t, key, io.offer);
    var o := LeaseAllocator.GetOfferAddress(t, key, io.offer).1;
    if o.Some? && io.self.Some? {
      GrantRead(kind, e, io.self.value, o.value.netmask, o.value.gateway, DnsServers(io.dns),
                Reply(w, o.value.address));
    }
  }

  lemma NackFaithful(t: Table, w: Wire, interfaceIndex: U32, io: Outside)
    requires w.mtype == DHCPREQUEST
    ensures var b := NackFor(t, w, io).1;
      b.Some? ==> Faithful(Sent(interfaceIndex, w, OnWire(b.value)), t) && Codec.NoEnd(b.value.options)
  {
    if io.self.Some? {
      NackRead(io.self.value, Reply(w, 0));
    }
  }

  lemma RespondFaithful(e: Endian, excluded: U32, t: Table, w: Wire, interfaceIndex: U32, io: Outside)
    ensures var (t', b) := Respond(e, excluded, t, w, interfaceIndex, io);
      && (b.Some? ==> Faithful(Sent(interfaceIndex, w, OnWire(b.value)), t') && Codec.NoEnd(b.value.options))
      && (forall l: Lease :: LeaseOf(t, l) != 0 ==> LeaseOf(t', l) == LeaseOf(t, l))
  {
    if w.mtype == DHCPDISCOVER {
      GrantFaithful(DHCPOFFER, e, t, w, interfaceIndex, io);
    } else if w.mtype == DHCPREQUEST {
      var key := Lease(interfaceIndex, w.mac);
      var (t1, o) := LeaseAllocator.GetOfferAddress(t, key, io.validate);
      LookupFrame(t, key, io.validate);
      if o.Some? && w.requestedIp == o.value.address {
        GrantFaithful(DHCPACK, e, t1, w, interfaceIndex, io);
      } else {
        NackFaithful(t1, w, interfaceIndex, io);
      }
    }
  }

  // ---------- the DNS servers in order ----------

  /** How many of the first i properties are valid. */
  function ValidBefore(properties: seq<Option<U32>>, i: nat): nat
    requires i <= |properties|
    decreases i
  {
    if i == 0 then 0 else (if properties[0].Some? then 1 else 0) + ValidBefore(properties[1..], i - 1)
  }

  /** The list holds the valid properties and nothing else: each at the place that counts the valid ones
      before it. */
  lemma {:induction false} ServersInOrder(properties: seq<Option<U32>>)
    ensures |DnsServers(properties)| == ValidBefore(properties, |properties|)
    ensures forall i :: 0 <= i < |properties| && properties[i].Some? ==>
              && ValidBefore(properties, i) < |DnsServers(properties)|
              && DnsServers(properties)[ValidBefore(properties, i)] == properties[i].value
    decreases |properties|
  {
    if properties != [] {
      var rest := properties[1..];
      ServersInOrder(rest);
      forall i | 0 <= i < |properties| && properties[i].Some?
        ensures ValidBefore(properties, i) < |DnsServers(properties)|
        ensures DnsServers(properties)[ValidBefore(properties, i)] == properties[i].value
      {
        if i > 0 {
          assert rest[i - 1] == properties[i];
        }
      }
    }
  }

  /** What the four DNS entries of a reply must be: the valid properties in order, then zeros. */
  ghost predicate ServersListed(entries: seq<U32>, properties: DnsProperties)
    requires |entries| == 4
  {
    && (forall i :: 0 <= i < 4 && properties[i].Some? ==>
          ValidBefore(properties, i) < 4 && entries[ValidBefore(properties, i)] == properties[i].value)
    && (forall k :: ValidBefore(properties, 4) <= k < 4 ==> entries[k] == 0)
  }

  lemma SlotsListed(properties: DnsProperties)
    ensures var dns := DnsServers(properties);
      ServersListed([DnsSlot(dns, 0), DnsSlot(dns, 1), DnsSlot(dns, 2), DnsSlot(dns, 3)], properties)
  {
    var dns := DnsServers(properties);
    ServersInOrder(properties);
    assert |dns| <= 4;
    assert forall k :: 0 <= k < 4 ==>
      [DnsSlot(dns, 0), DnsSlot(dns, 1), DnsSlot(dns, 2), DnsSlot(dns, 3)][k] == if k < |dns| then dns[k] else 0;
  }

  // ---------- when the server is silent, and what it answers otherwise ----------

  /** Nothing this server answers: from no interface or the excluded one, not a well-formed request, or
      of a type other than discover and request. */
  predicate NotForServer(excluded: U32, w: Wire, interfaceIndex: U32) {
    || interfaceIndex == 0 || interfaceIndex == excluded || !w.wellFormed || w.op != OP_BOOTREQUEST
    || w.mtype !in {DHCPDISCOVER, DHCPREQUEST}
  }

  /** The request names the address that a lookup gives its client. */
  predicate Confirmed(t: Table, w: Wire, interfaceIndex: U32, io: Outside) {
    var o := LeaseAllocator.GetOfferAddress(t, Lease(interfaceIndex, w.mac), io.validate).1;
    o.Some? && o.value.address == w.requestedIp
  }

  /** The server is silent exactly for messages that are not for it, without an interface address, and
      when the lookup behind an offer, or the second one behind an acknowledgement, fails. The first
      kind leaves the table alone. */
  lemma SilentIff(e: Endian, excluded: U32, t: Table, w: Wire, interfaceIndex: U32, io: Outside)
    ensures var (t', b) := Respond(e, excluded, t, w, interfaceIndex, io);
      && (b == None <==>
            || NotForServer(excluded, w, interfaceIndex) || io.self == None
            || (w.mtype == DHCPDISCOVER &&
                LeaseAllocator.GetOfferAddress(t, Lease(interfaceIndex, w.mac), io.offer).1 == None)
            || (w.mtype == DHCPREQUEST && Confirmed(t, w, interfaceIndex, io)
                && (io.offer.address == None || io.offer.netmask == None)))
      && (NotForServer(excluded, w, interfaceIndex) ==> t' == t)
  {
    LookupFrame(t, Lease(interfaceIndex, w.mac), io.validate);
  }

  /** Every discover and every request that the server takes, answered or not, moves the table by exactly
      one lookup for its client: the second lookup behind an acknowledgement finds the lease in place. */
  lemma OneLookup(e: Endian, excluded: U32, t: Table, w: Wire, interfaceIndex: U32, io: Outside)
    ensures Respond(e, excluded, t, w, interfaceIndex, io).0 ==
            if NotForServer(excluded, w, interfaceIndex) then t
            else LeaseAllocator.GetOfferAddress(t, Lease(interfaceIndex, w.mac),
                                                if w.mtype == DHCPDISCOVER then io.offer else io.validate).0
  {
    LookupFrame(t, Lease(interfaceIndex, w.mac), io.validate);
  }

  /** Which of the three replies is sent: an offer to a discover, an acknowledgement to a request for the
      client's lease, and a refusal to any other request. */
  lemma ReplyTypeIff(e: Endian, excluded: U32, t: Table, w: Wire, interfaceIndex: U32, io: Outside)
    requires Respond(e, excluded, t, w, interfaceIndex, io).1.Some?
    ensures var reply := OnWire(Respond(e, excluded, t, w, interfaceIndex, io).1.value);
      && (reply.mtype == DHCPOFFER <==> w.mtype == DHCPDISCOVER)
      && (reply.mtype == DHCPACK <==> w.mtype == DHCPREQUEST && Confirmed(t, w, interfaceIndex, io))
      && (reply.mtype == DHCPNAK <==> w.mtype == DHCPREQUEST && !Confirmed(t, w, interfaceIndex, io))
  {
    RespondFaithful(e, excluded, t, w, interfaceIndex, io);
    var key := Lease(interfaceIndex, w.mac);
    var t1 := LeaseAllocator.GetOfferAddress(t, key, io.validate).0;
    if w.mtype == DHCPDISCOVER {
      GrantType(DHCPOFFER, e, t, w, key, io);
    } else if Confirmed(t, w, interfaceIndex, io) {
      GrantType(DHCPACK, e, t1, w, key, io);
    } else {
      NackRead(io.self.value, Reply(w, 0));
    }
  }

  lemma GrantType(kind: Byte, e: Endian, t: Table, w: Wire, key: Lease, io: Outside)
    ensures var b := GrantFor(kind, e, t, w, key, io).1;
      b.Some? ==>
        var reply := OnWire(b.value);
        && reply.mtype == kind && reply.serverId == io.self.value
        && reply.info.subnetMask == io.offer.netmask.value && reply.info.gateway == io.offer.address.value
        && ServersListed(reply.info.dns, io.dns)
  {
    LookupFrame(t, key, io.offer);
    var o := LeaseAllocator.GetOfferAddress(t, key, io.offer).1;
    if o.Some? && io.self.Some? {
      GrantRead(kind, e, io.self.value, o.value.netmask, o.value.gateway, DnsServers(io.dns),
                Reply(w, o.value.address));
      SlotsListed(io.dns);
    }
  }

  /** The settings a grant carries are those of the interface, read with it: netmask, the interface's
      address as gateway and as server, and the valid DNS properties in order. */
  lemma GrantSettings(e: Endian, excluded: U32, t: Table, w: Wire, interfaceIndex: U32, io: Outside)
    requires Respond(e, excluded, t, w, interfaceIndex, io).1.Some?
    ensures var reply := OnWire(Respond(e, excluded, t, w, interfaceIndex, io).1.value);
      && reply.serverId == io.self.value
      && (IsGrant(reply) ==>
            && io.offer.address.Some? && io.offer.netmask.Some?
            && reply.info.subnetMask == io.offer.netmask.value && reply.info.gateway == io.offer.address.value
            && ServersListed(reply.info.dns, io.dns))
  {
    ReplyTypeIff(e, excluded, t, w, interfaceIndex, io);
    var key := Lease(interfaceIndex, w.mac);
    var t1 := LeaseAllocator.GetOfferAddress(t, key, io.validate).0;
    if w.mtype == DHCPDISCOVER {
      GrantType(DHCPOFFER, e, t, w, key, io);
      LookupFrame(t, key, io.offer);
    } else if Confirmed(t, w, interfaceIndex, io) {
      GrantType(DHCPACK, e, t1, w, key, io);
      LookupFrame(t1, key, io.offer);
    } else {
      NackRead(io.self.value, Reply(w, 0));
    }
  }

  // ---------- whole runs, continued ----------

  lemma {:induction false} ServeKeepsLeases(e: Endian, excluded: U32, t: Table, events: seq<Event>, l: Lease)
    requires LeaseOf(t, l) != 0
    ensures LeaseOf(Serve(e, excluded, t, events).0, l) == LeaseOf(t, l)
    decreases |events|
  {
    if events != [] {
      var v := events[0];
      RespondFaithful(e, excluded, t, v.w, v.interfaceIndex, v.io);
      ServeKeepsLeases(e, excluded, Respond(e, excluded, t, v.w, v.interfaceIndex, v.io).0, events[1..], l);
    }
  }

  ghost predicate AllFaithful(log: seq<Sent>, t: Table) {
    forall k :: 0 <= k < |log| ==> Faithful(log[k], t)
  }

  /** Every reply of a run is faithful to the lease table the run ends with, whatever the interface
      settings were at any moment. */
  lemma {:induction false} ServeFaithful(e: Endian, excluded: U32, t: Table, events: seq<Event>)
    ensures AllFaithful(Serve(e, excluded, t, events).1, Serve(e, excluded, t, events).0)
    decreases |events|
  {
    if events != [] {
      var v := events[0];
      var (t', b) := Respond(e, excluded, t, v.w, v.interfaceIndex, v.io);
      RespondFaithful(e, excluded, t, v.w, v.interfaceIndex, v.io);
      ServeFaithful(e, excluded, t', events[1..]);
      var (t'', log) := Serve(e, excluded, t', events[1..]);
      var (total, all) := Serve(e, excluded, t, events);
      assert total == t'';
      if b.Some? {
        var first := Sent(v.interfaceIndex, v.w, OnWire(b.value));
        FaithfulLater(e, excluded, first, t', events[1..]);
        assert all == [first] + log;
      } else {
        assert all == log;
      }
    }
  }

  lemma FaithfulLater(e: Endian, excluded: U32, s: Sent, t: Table, events: seq<Event>)
    requires Faithful(s, t)
    ensures Faithful(s, Serve(e, excluded, t, events).0)
  {
    var key := Lease(s.interfaceIndex, s.request.mac);
    if LeaseOf(t, key) != 0 {
      ServeKeepsLeases(e, excluded, t, events, key);
    }
  }

  /** All offers and acks to one client on one interface carry the same non-zero address. */
  lemma SameClientSameAddress(e: Endian, excluded: U32, events: seq<Event>, i: nat, j: nat)
    requires var log := Serve(e, excluded, EMPTY_TABLE, events).1;
      && i < |log| && j < |log| && IsGrant(log[i].reply) && IsGrant(log[j].reply)
      && log[i].interfaceIndex == log[j].interfaceIndex && log[i].request.mac == log[j].request.mac
    ensures var log := Serve(e, excluded, EMPTY_TABLE, events).1;
      log[i].reply.yiaddr == log[j].reply.yiaddr != 0
  {
    ServeFaithful(e, excluded, EMPTY_TABLE, events);
    var (t, log) := Serve(e, excluded, EMPTY_TABLE, events);
    assert Faithful(log[i], t) && Faithful(log[j], t);
  }

  // ---------- one interface with fixed settings ----------

  predicate OutsideReports(io: Outside, address: U32, mask: U32) {
    Reports(io.validate, address, mask) && Reports(io.offer, address, mask)
  }

  lemma RespondKeepsExact(e: Endian, excluded: U32, t: Table, w: Wire, interfaceIndex: U32, io: Outside,
                          i: U32, address: U32, mask: U32)
    requires Exact(t, i, address, mask)
    requires interfaceIndex == i ==> OutsideReports(io, address, mask)
    ensures Exact(Respond(e, excluded, t, w, interfaceIndex, io).0, i, address, mask)
  {
    OneLookup(e, excluded, t, w, interfaceIndex, io);
    var key := Lease(interfaceIndex, w.mac);
    LookupKeepsExact(t, key, if w.mtype == DHCPDISCOVER then io.offer else io.validate, i, address, mask);
  }

  lemma {:induction false} ServeKeepsExact(e: Endian, excluded: U32, t: Table, events: seq<Event>,
                                           i: U32, address: U32, mask: U32)
    requires Exact(t, i, address, mask)
    requires forall v :: v in events && v.interfaceIndex == i ==> OutsideReports(v.io, address, mask)
    ensures Exact(Serve(e, excluded, t, events).0, i, address, mask)
    decreases |events|
  {
    if events != [] {
      var v := events[0];
      RespondKeepsExact(e, excluded, t, v.w, v.interfaceIndex, v.io, i, address, mask);
      var t' := Respond(e, excluded, t, v.w, v.interfaceIndex, v.io).0;
      ServeKeepsExact(e, excluded, t', events[1..], i, address, mask);
    }
  }

  /** While the settings of an interface stay fixed, two clients on it are never granted one address,
      and every granted address is a host address of its network. */
  lemma DifferentClientsDifferentAddresses(e: Endian, excluded: U32, events: seq<Event>, i: U32,
                                           address: U32, mask: U32, j: nat, k: nat)
    requires forall v :: v in events && v.interfaceIndex == i ==> OutsideReports(v.io, address, mask)
    requires var log := Serve(e, excluded, EMPTY_TABLE, events).1;
      && j < |log| && k < |log| && IsGrant(log[j].reply) && IsGrant(log[k].reply)
      && log[j].interfaceIndex == log[k].interfaceIndex == i
    ensures var log := Serve(e, excluded, EMPTY_TABLE, events).1;
      && Assignable(log[j].reply.yiaddr, address, mask)
      && (log[j].reply.yiaddr == log[k].reply.yiaddr <==> log[j].request.mac == log[k].request.mac)
  {
    ServeFaithful(e, excluded, EMPTY_TABLE, events);
    assert Exact(EMPTY_TABLE, i, address, mask);
    ServeKeepsExact(e, excluded, EMPTY_TABLE, events, i, address, mask);
    var (t, log) := Serve(e, excluded, EMPTY_TABLE, events);
    TwoGrants(log[j], log[k], t, i, address, mask);
  }

  lemma TwoGrants(a: Sent, b: Sent, t: Table, i: U32, address: U32, mask: U32)
    requires Exact(t, i, address, mask) && Faithful(a, t) && Faithful(b, t)
    requires IsGrant(a.reply) && IsGrant(b.reply) && a.interfaceIndex == b.interfaceIndex == i
    ensures Assignable(a.reply.yiaddr, address, mask)
    ensures a.reply.yiaddr == b.reply.yiaddr <==> a.request.mac == b.request.mac
  {
    assert LeaseOf(t, Lease(i, a.request.mac)) == a.reply.yiaddr;
    assert LeaseOf(t, Lease(i, b.request.mac)) == b.reply.yiaddr;
  }
}
