/** Client and server together: the exchanges that get, keep and lose an address. */
module Handshake {
  import opened Words
  import opened Dhcp
  import opened DhcpMessage
  import opened LeaseAllocator
  import A = ClientAnswers
  import C = ClientMachine
  import Server

  /** The server's side of an exchange: byte order, interfaces, and what its ioctl calls report. */
  datatype Site = Site(e: Endian, excluded: U32, interfaceIndex: U32, address: U32, mask: U32,
                       dns: Server.DnsProperties)

  predicate Serving(s: Site) {
    s.interfaceIndex != 0 && s.interfaceIndex != s.excluded
  }

  function Io(s: Site): Server.Outside {
    var cfg := IfConfig(Some(s.address), Some(s.mask));
    Server.Outside(cfg, cfg, Some(s.address), s.dns)
  }

  function Answer(s: Site, t: Table, w: Wire): (Table, Option<Built>) {
    Server.Respond(s.e, s.excluded, t, w, s.interfaceIndex, Io(s))
  }

  function KeyOf(s: Site, c: C.Client): Lease {
    Lease(s.interfaceIndex, c.mac)
  }

  /** The table after a lookup for this client, and the address it gives, if any. */
  function Looked(s: Site, t: Table, c: C.Client): (Table, Option<Offer>) {
    LeaseAllocator.GetOfferAddress(t, KeyOf(s, c), IfConfig(Some(s.address), Some(s.mask)))
  }

  /** The interface takes the configuration. */
  predicate Smooth(o: C.Outcome) {
    o.link && o.setting == C.Done && o.gateway
  }

  // ---------- discover and offer ----------

  /** A discover is answered if and only if there is an address for the client; the client then asks
      that server for exactly that address. */
  lemma DiscoverToRequest(s: Site, t: Table, c: C.Client, o: C.Outcome, now1: U64, now2: U64)
    requires Serving(s) && c.state == C.Selecting
    ensures var (c1, discover) := C.Evaluate(c, now1, now2);
      var (t1, looked) := Looked(s, t, c);
      && discover.Some?
      && var (t', offer) := Answer(s, t, OnWire(discover.value));
         && t' == t1 && (offer.Some? <==> looked.Some?)
         && (offer.Some? ==>
               var (c2, over) := C.Hear(c1, OnWire(offer.value), o);
               over && c2.state == C.Requesting && c2.nextTimeout == C.NO_TIMEOUT && c2.fuzz
               && c2.requestAddress == looked.value.address && c2.serverAddress == s.address
               && c2.mac == c.mac && c2.noGateway == c.noGateway)
  {
    DiscoverRead(FromClient(c.mac, c.nextId));
    var looked := Looked(s, t, c).1;
    if looked.Some? {
      var discover := OnWire(C.Evaluate(c, now1, now2).1.value);
      GrantRead(DHCPOFFER, s.e, s.address, s.mask, s.address, Server.DnsServers(s.dns),
                Reply(discover, looked.value.address));
    }
  }

  // ---------- request and answer ----------

  /** A client that will send a request if the clock reads `now`. */
  predicate AboutToAsk(c: C.Client, now: U64) {
    (C.Asking(c) && c.nextTimeout < C.MAX_TIMEOUT) || (c.state == C.Renewing && now < c.t2)
  }

  /** A request is acknowledged if and only if it asks for the client's lease, and refused otherwise;
      either way the server has looked the client up, and so may have given it a lease. */
  lemma AckIffLease(s: Site, t: Table, c: C.Client, now1: U64, now2: U64)
    requires Serving(s) && AboutToAsk(c, now1)
    ensures var (c1, request) := C.Evaluate(c, now1, now2);
      var (t1, looked) := Looked(s, t, c);
      && request.Some?
      && var (t', answer) := Answer(s, t, OnWire(request.value));
         && t' == t1 && answer.Some?
         && if looked.Some? && looked.value.address == c.requestAddress
            then answer.value == Built(Reply(OnWire(request.value), c.requestAddress),
                                       GrantOptions(DHCPACK, s.e, s.address, s.mask, s.address,
                                                    Server.DnsServers(s.dns)))
            else answer.value == Built(Reply(OnWire(request.value), 0), NackOptions(s.address))
  {
    C.AsksForAddress(c, C.Round(now1, now2, 0, []));
    RequestAnswered(s, t, c, OnWire(C.Evaluate(c, now1, now2).1.value));
  }

  lemma RequestAnswered(s: Site, t: Table, c: C.Client, w: Wire)
    requires Serving(s) && C.Asks(w, c.requestAddress, C.Destination(c)) && w.mac == c.mac
    ensures var (t1, looked) := Looked(s, t, c);
      Answer(s, t, w) ==
      (t1, Some(if looked.Some? && looked.value.address == c.requestAddress
                then Built(Reply(w, c.requestAddress),
                           GrantOptions(DHCPACK, s.e, s.address, s.mask, s.address,
                                                    Server.DnsServers(s.dns)))
                else Built(Reply(w, 0), NackOptions(s.address))))
  {
    LookupFrame(t, KeyOf(s, c), IfConfig(Some(s.address), Some(s.mask)));
  }

  /** A client that asks for its lease, for the first time or again, ends in Bound with that address. */
  lemma AskingForTheLeaseBinds(s: Site, t: Table, c: C.Client, o: C.Outcome, now1: U64, now2: U64)
    requires Serving(s) && AboutToAsk(c, now1) && Smooth(o)
    requires Looked(s, t, c).1.Some? && Looked(s, t, c).1.value.address == c.requestAddress
    ensures var (c1, request) := C.Evaluate(c, now1, now2);
      && request.Some?
      && var answer := Answer(s, t, OnWire(request.value)).1;
         answer.Some? && var (c2, over) := C.Hear(c1, OnWire(answer.value), o);
         over && c2.state == C.Bound && c2.address == c.requestAddress
  {
    AckIffLease(s, t, c, now1, now2);
    var (c1, request) := C.Evaluate(c, now1, now2);
    C.AckConfigures(c1, s.e, Reply(OnWire(request.value), c.requestAddress), s.address, s.mask, s.address,
                    Server.DnsServers(s.dns), o);
  }

  /** The same as one whole round of the client's loop: it asks, and while it polls, behind anything that
      is no answer, the server's reply arrives. */
  lemma AskingRoundBinds(s: Site, t: Table, c: C.Client, r: C.Round, before: seq<C.Poll>, p: C.Poll,
                         after: seq<C.Poll>)
    requires Serving(s) && AboutToAsk(c, r.now1) && C.Evaluate(c, r.now1, r.now2).1.Some?
    requires Looked(s, t, c).1.Some? && Looked(s, t, c).1.value.address == c.requestAddress
    requires r.polls == before + [p] + after && A.NoAnswer(c.(lastXid := c.nextId), before)
    requires A.LeftAfter(C.CalculateTimeout(A.Started(c, r), r.adjustment), before).Some?
    requires var answer := Answer(s, t, OnWire(C.Evaluate(c, r.now1, r.now2).1.value)).1;
      answer.Some? && p.result.Readable? && Smooth(p.result.outcome) && p.result.received == Some(OnWire(answer.value))
    ensures C.AfterRound(c, r).state == C.Bound && C.AfterRound(c, r).address == c.requestAddress
  {
    AckIffLease(s, t, c, r.now1, r.now2);
    var request := OnWire(C.Evaluate(c, r.now1, r.now2).1.value);
    C.SwitchSends(c, r.now1, r.now2);
    GrantRead(DHCPACK, s.e, s.address, s.mask, s.address, Server.DnsServers(s.dns), Reply(request, c.requestAddress));
    LeaseTimeSurvivesIffBigEndian(s.e);
    A.AskAndBind(c, r, before, p, after);
  }

  /** A client that asks for anything else is sent back to Init and, if its interface obeys, loses
      its address. */
  lemma AskingForAnotherResets(s: Site, t: Table, c: C.Client, o: C.Outcome, now1: U64, now2: U64)
    requires Serving(s) && AboutToAsk(c, now1)
    requires Looked(s, t, c).1.Some? ==> Looked(s, t, c).1.value.address != c.requestAddress
    ensures var (c1, request) := C.Evaluate(c, now1, now2);
      && request.Some?
      && var answer := Answer(s, t, OnWire(request.value)).1;
         answer.Some? && var (c2, over) := C.Hear(c1, OnWire(answer.value), o);
         over && c2.state == C.Init && (o.setting != C.Failed ==> c2.address == 0)
  {
    AckIffLease(s, t, c, now1, now2);
    var (c1, request) := C.Evaluate(c, now1, now2);
    NackRead(s.address, Reply(OnWire(request.value), 0));
  }

  // ---------- the whole exchange ----------

  /** Discover, offer, request, ack: on a network that delivers, a selecting client whom the server
      has an address for is bound to its lease after four messages. */
  lemma FourMessagesBind(s: Site, t: Table, c: C.Client, o1: C.Outcome, o2: C.Outcome, now1: U64, now2: U64)
    requires Serving(s) && c.state == C.Selecting && Looked(s, t, c).1.Some? && Smooth(o2)
    ensures var (c1, discover) := C.Evaluate(c, now1, now2);
      var (t1, offer) := Answer(s, t, OnWire(discover.value));
      && offer.Some?
      && var c2 := C.Hear(c1, OnWire(offer.value), o1).0;
         var (c3, request) := C.Evaluate(c2, now1, now2);
         && request.Some?
         && var (t2, ack) := Answer(s, t1, OnWire(request.value));
            && ack.Some? && t2 == t1
            && var c4 := C.Hear(c3, OnWire(ack.value), o2).0;
               c4.state == C.Bound && c4.address == LeaseOf(t1, KeyOf(s, c)) != 0
  {
    DiscoverToRequest(s, t, c, o1, now1, now2);
    var (c1, discover) := C.Evaluate(c, now1, now2);
    var (t1, offer) := Answer(s, t, OnWire(discover.value));
    var c2 := C.Hear(c1, OnWire(offer.value), o1).0;
    SecondLookup(s, t, c, c2);
    AckIffLease(s, t1, c2, now1, now2);
    AskingForTheLeaseBinds(s, t1, c2, o2, now1, now2);
  }

  /** Looking a client up again finds the same lease and changes nothing. */
  lemma SecondLookup(s: Site, t: Table, c: C.Client, c': C.Client)
    requires Looked(s, t, c).1.Some? && c'.mac == c.mac
    ensures var (t1, looked) := Looked(s, t, c);
      Looked(s, t1, c') == (t1, looked) && looked.value.address == LeaseOf(t1, KeyOf(s, c)) != 0
  {
    LookupFrame(t, KeyOf(s, c), IfConfig(Some(s.address), Some(s.mask)));
  }
}
