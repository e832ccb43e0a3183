/** Exactly which networks are safe from shared addresses: on every other one, whatever the transaction
    counters start with, some run leads two clients to one address. */
module Sharing {
  import opened Words
  import opened Dhcp
  import opened DhcpMessage
  import opened LeaseAllocator
  import opened Network
  import C = ClientMachine
  import Server

  predicate Serves(net: Net) {
    net.interfaceIndex != 0 && net.interfaceIndex != net.excluded
  }

  ghost predicate HasHost(net: Net) {
    exists h: U32 :: Assignable(h, net.address, net.mask)
  }

  /** The server serves this interface and has an address to give to its first client. */
  predicate CanServe(net: Net, mac: Mac) {
    Serves(net) && LeaseAllocator.Allocate(EMPTY_TABLE, Lease(net.interfaceIndex, mac), net.address, net.mask).1.Some?
  }

  lemma CanServeIffHasHost(net: Net, mac: Mac)
    ensures CanServe(net, mac) <==> Serves(net) && HasHost(net)
  {
    var key := Lease(net.interfaceIndex, mac);
    assert Exact(EMPTY_TABLE, net.interfaceIndex, net.address, net.mask);
    RefusedIffAllLeased(EMPTY_TABLE, key, net.address, net.mask);
    if HasHost(net) {
      var h: U32 :| Assignable(h, net.address, net.mask);
      assert !Holds(EMPTY_TABLE, net.interfaceIndex, h);
    }
  }

  function FirstHost(net: Net, mac: Mac): (a: U32)
    requires CanServe(net, mac)
    ensures a != 0
  {
    LeaseAllocator.Allocate(EMPTY_TABLE, Lease(net.interfaceIndex, mac), net.address, net.mask).1.value
  }

  function LeaseTable(net: Net, mac: Mac): Table {
    LeaseAllocator.Allocate(EMPTY_TABLE, Lease(net.interfaceIndex, mac), net.address, net.mask).0
  }

  function Quietly(net: Net): Server.Outside {
    var cfg := IfConfig(Some(net.address), Some(net.mask));
    Server.Outside(cfg, cfg, Some(net.address), [None, None, None, None])
  }

  const SMOOTHLY := C.Outcome(0, 0, true, true, [true, true, true, true, true], C.Done, true)

  function DiscoverOf(mac: Mac, id: U32): Wire {
    WireOf(FromClient(mac, id), DiscoverOptions())
  }

  function RequestOf(net: Net, mac: Mac, id: U32, address: U32): Wire {
    WireOf(FromClient(mac, id), RequestOptions(address, net.address))
  }

  function Granted(net: Net, kind: Byte, request: Wire, address: U32): Wire {
    WireOf(Reply(request, address), GrantOptions(kind, net.e, net.address, net.mask, net.address, []))
  }

  function After(id: U32): U32 {
    (id + 1) % TWO_32
  }

  // ---------- the stages of a client in the run ----------

  predicate AboutToDiscover(p: Process, mac: Mac, id: U32) {
    !p.polling && p.c.state == C.Selecting && p.c.nextId == id && p.c.mac == mac
  }

  predicate HearsOffers(p: Process, mac: Mac, id: U32) {
    p.polling && p.c.state == C.Selecting && p.c.lastXid == id && p.c.nextId == After(id) && p.c.mac == mac
  }

  predicate HearsAcks(p: Process, mac: Mac, id: U32, address: U32) {
    && p.polling && p.c.state == C.Requesting && p.c.lastXid == id && p.c.mac == mac
    && p.c.requestAddress == address
  }

  // ---------- extending a run ----------

  lemma Then(net: Net, s0: System, before: seq<Action>, s: System, a: Action) returns (actions: seq<Action>)
    requires Run(net, s0, before) == s && Enabled(net, s, a)
    ensures Run(net, s0, actions) == Act(net, s, a)
  {
    RunConcat(net, s0, before, [a]);
    RunOne(net, s, a);
    actions := before + [a];
  }

  /** A fresh client starts to select. */
  lemma Begin(net: Net, s0: System, before: seq<Action>, s: System, k: nat) returns (actions: seq<Action>, p: Process)
    requires Run(net, s0, before) == s
    requires k < |s.procs| && !s.procs[k].polling && s.procs[k].c.state == C.Init
    ensures Run(net, s0, actions) == s.(procs := s.procs[k := p])
    ensures AboutToDiscover(p, s.procs[k].c.mac, s.procs[k].c.nextId)
  {
    actions := Then(net, s0, before, s, Evaluate(k, 0, 0));
    p := Process(C.Evaluate(s.procs[k].c, 0, 0).0, false);
  }

  /** A selecting client discovers, and then polls. */
  lemma Discover(net: Net, s0: System, before: seq<Action>, s: System, k: nat, mac: Mac, id: U32)
    returns (actions: seq<Action>, p: Process)
    requires Run(net, s0, before) == s && k < |s.procs| && AboutToDiscover(s.procs[k], mac, id)
    ensures Run(net, s0, actions) == s.(procs := s.procs[k := p], wire := s.wire + {DiscoverOf(mac, id)})
    ensures HearsOffers(p, mac, id)
  {
    actions := Then(net, s0, before, s, Evaluate(k, 0, 0));
    p := Process(C.Evaluate(s.procs[k].c, 0, 0).0, true);
  }

  /** One unanswered round of discovery. */
  lemma DiscoverAgain(net: Net, s0: System, before: seq<Action>, s: System, k: nat, mac: Mac, id: U32)
    returns (actions: seq<Action>, p: Process)
    requires Run(net, s0, before) == s && k < |s.procs| && AboutToDiscover(s.procs[k], mac, id)
    ensures Run(net, s0, actions) == s.(procs := s.procs[k := p], wire := s.wire + {DiscoverOf(mac, id)})
    ensures AboutToDiscover(p, mac, After(id))
  {
    actions, p := Discover(net, s0, before, s, k, mac, id);
    var s1 := s.(procs := s.procs[k := p], wire := s.wire + {DiscoverOf(mac, id)});
    actions := Then(net, s0, actions, s1, TimeOut(k));
    p := p.(polling := false);
    assert s1.procs[k := p] == s.procs[k := p];
  }

  /** Discovering again and again brings a client's counter to any value. */
  lemma {:induction false} Advance(net: Net, s0: System, before: seq<Action>, s: System, k: nat, mac: Mac,
                                    id: U32, dist: nat)
    returns (actions: seq<Action>, p: Process, wire: set<Wire>)
    requires Run(net, s0, before) == s && k < |s.procs| && AboutToDiscover(s.procs[k], mac, id)
    ensures Run(net, s0, actions) == s.(procs := s.procs[k := p], wire := wire)
    ensures AboutToDiscover(p, mac, (id + dist) % TWO_32)
    decreases dist
  {
    if dist == 0 {
      actions, p, wire := before, s.procs[k], s.wire;
      assert s.procs[k := p] == s.procs;
    } else {
      var p1;
      actions, p1 := DiscoverAgain(net, s0, before, s, k, mac, id);
      var s1 := s.(procs := s.procs[k := p1], wire := s.wire + {DiscoverOf(mac, id)});
      actions, p, wire := Advance(net, s0, actions, s1, k, mac, After(id), dist - 1);
      assert s1.procs[k := p] == s.procs[k := p];
      StepsAdd(id, dist);
    }
  }

  lemma StepsAdd(id: U32, dist: nat)
    requires dist > 0
    ensures (After(id) + (dist - 1)) % TWO_32 == (id + dist) % TWO_32
  {
  }

  lemma ReachCounter(id: U32, target: U32) returns (dist: nat)
    ensures (id + dist) % TWO_32 == target
  {
    dist := (target - id) % TWO_32;
  }

  // ---------- the server's two answers ----------

  lemma NoDnsServers()
    ensures Server.DnsServers([None, None, None, None]) == []
  {
    assert Server.DnsServers([None, None]) == [];
  }

  /** The server offers the first client that discovers its first address. */
  lemma OfferMade(net: Net, s0: System, before: seq<Action>, s: System, mac: Mac, id: U32)
    returns (actions: seq<Action>)
    requires Run(net, s0, before) == s && s.table == EMPTY_TABLE && DiscoverOf(mac, id) in s.wire && CanServe(net, mac)
    ensures Run(net, s0, actions) ==
            s.(table := LeaseTable(net, mac),
               wire := s.wire + {Granted(net, DHCPOFFER, DiscoverOf(mac, id), FirstHost(net, mac))})
  {
    DiscoverRead(FromClient(mac, id));
    NoDnsServers();
    actions := Then(net, s0, before, s, Serve(DiscoverOf(mac, id), Quietly(net)));
  }

  /** It acknowledges the request of that client for that address. */
  lemma AckMade(net: Net, s0: System, before: seq<Action>, s: System, mac: Mac, id: U32) returns (actions: seq<Action>)
    requires CanServe(net, mac)
    requires Run(net, s0, before) == s && s.table == LeaseTable(net, mac)
    requires RequestOf(net, mac, id, FirstHost(net, mac)) in s.wire
    ensures Run(net, s0, actions) ==
            s.(wire := s.wire +
                    {Granted(net, DHCPACK, RequestOf(net, mac, id, FirstHost(net, mac)), FirstHost(net, mac))})
  {
    RequestRead(FirstHost(net, mac), net.address, FromClient(mac, id));
    NoDnsServers();
    assert LeaseOf(LeaseTable(net, mac), Lease(net.interfaceIndex, mac)) == FirstHost(net, mac);
    actions := Then(net, s0, before, s, Serve(RequestOf(net, mac, id, FirstHost(net, mac)), Quietly(net)));
  }

  // ---------- what the clients do with them ----------

  /** A client takes an offer with its id, whoever it was made to, and asks for the address. */
  lemma TakeOffer(net: Net, s0: System, before: seq<Action>, s: System, k: nat, mac: Mac, id: U32, to: Wire,
                  address: U32)
    returns (actions: seq<Action>, p: Process)
    requires Run(net, s0, before) == s && k < |s.procs| && HearsOffers(s.procs[k], mac, id)
    requires to.xid == id && Granted(net, DHCPOFFER, to, address) in s.wire
    ensures Run(net, s0, actions) ==
            s.(procs := s.procs[k := p], wire := s.wire + {RequestOf(net, mac, After(id), address)})
    ensures HearsAcks(p, mac, After(id), address)
  {
    GrantRead(DHCPOFFER, net.e, net.address, net.mask, net.address, [], Reply(to, address));
    var hear := Hear(k, Granted(net, DHCPOFFER, to, address), SMOOTHLY);
    actions := Then(net, s0, before, s, hear);
    var s1 := Act(net, s, hear);
    actions := Then(net, s0, actions, s1, Evaluate(k, 0, 0));
    p := Process(C.Evaluate(s1.procs[k].c, 0, 0).0, true);
    assert s1.procs[k := p] == s.procs[k := p];
  }

  /** A client takes an ack with its id, whoever it was sent to, and configures the address. */
  lemma TakeAck(net: Net, s0: System, before: seq<Action>, s: System, k: nat, mac: Mac, id: U32, to: Wire, address: U32)
    returns (actions: seq<Action>, p: Process)
    requires Run(net, s0, before) == s && k < |s.procs| && HearsAcks(s.procs[k], mac, id, address)
    requires to.xid == id && Granted(net, DHCPACK, to, address) in s.wire
    ensures Run(net, s0, actions) == s.(procs := s.procs[k := p]) && p.c.address == address
  {
    C.AckConfigures(s.procs[k].c, net.e, Reply(to, address), net.address, net.mask, net.address, [], SMOOTHLY);
    var hear := Hear(k, Granted(net, DHCPACK, to, address), SMOOTHLY);
    actions := Then(net, s0, before, s, hear);
    p := Process(C.Hear(s.procs[k].c, Granted(net, DHCPACK, to, address), SMOOTHLY).0, false);
  }

  // ---------- the run ----------

  /** Two clients that stand ready with the same counter, before the server has given any lease. */
  ghost predicate SameCounter(net: Net, s: System, j: nat, k: nat, id: U32) {
    && j < |s.procs| && k < |s.procs| && j != k && s.table == EMPTY_TABLE
    && AboutToDiscover(s.procs[j], s.procs[j].c.mac, id) && AboutToDiscover(s.procs[k], s.procs[k].c.mac, id)
    && CanServe(net, s.procs[j].c.mac)
  }

  /** One client discovers until its counter meets the other's. */
  lemma CountersMeet(net: Net, s: System, j: nat, k: nat) returns (actions: seq<Action>, id: U32)
    requires Initial(s) && j < |s.procs| && k < |s.procs| && j != k && CanServe(net, s.procs[j].c.mac)
    ensures SameCounter(net, Run(net, s, actions), j, k, id)
  {
    var a, b := s.procs[j].c, s.procs[k].c;
    var p, q, wire;
    actions, q := Begin(net, s, [], s, k);
    var s1 := s.(procs := s.procs[k := q]);
    actions, p := Begin(net, s, actions, s1, j);
    var s2 := s1.(procs := s1.procs[j := p]);
    var dist := ReachCounter(a.nextId, b.nextId);
    actions, p, wire := Advance(net, s, actions, s2, j, a.mac, a.nextId, dist);
    id := b.nextId;
  }

  /** Both discover under the same id, and both take the one offer that answers it. */
  lemma BothRequest(net: Net, s0: System, before: seq<Action>, s: System, j: nat, k: nat, id: U32)
    returns (actions: seq<Action>, s': System)
    requires Run(net, s0, before) == s && SameCounter(net, s, j, k, id)
    ensures Run(net, s0, actions) == s' && s'.table == LeaseTable(net, s.procs[j].c.mac) && |s'.procs| == |s.procs|
    ensures var address := FirstHost(net, s.procs[j].c.mac);
      && HearsAcks(s'.procs[j], s.procs[j].c.mac, After(id), address)
      && HearsAcks(s'.procs[k], s.procs[k].c.mac, After(id), address)
      && RequestOf(net, s.procs[j].c.mac, After(id), address) in s'.wire
  {
    var m, n := s.procs[j].c.mac, s.procs[k].c.mac;
    var address, discover := FirstHost(net, m), DiscoverOf(m, id);
    var p, q;
    actions, p := Discover(net, s0, before, s, j, m, id);
    s' := s.(procs := s.procs[j := p], wire := s.wire + {discover});
    actions, q := Discover(net, s0, actions, s', k, n, id);
    s' := s'.(procs := s'.procs[k := q], wire := s'.wire + {DiscoverOf(n, id)});
    actions := OfferMade(net, s0, actions, s', m, id);
    s' := s'.(table := LeaseTable(net, m), wire := s'.wire + {Granted(net, DHCPOFFER, discover, address)});
    actions, p := TakeOffer(net, s0, actions, s', j, m, id, discover, address);
    s' := s'.(procs := s'.procs[j := p], wire := s'.wire + {RequestOf(net, m, After(id), address)});
    actions, q := TakeOffer(net, s0, actions, s', k, n, id, discover, address);
    s' := s'.(procs := s'.procs[k := q], wire := s'.wire + {RequestOf(net, n, After(id), address)});
  }

  /** Both take the one ack that answers the first one's request. */
  lemma BothBind(net: Net, s0: System, before: seq<Action>, s: System, j: nat, k: nat, m: Mac, n: Mac, id: U32)
    returns (actions: seq<Action>)
    requires CanServe(net, m) && Run(net, s0, before) == s && s.table == LeaseTable(net, m)
    requires j < |s.procs| && k < |s.procs| && j != k
    requires HearsAcks(s.procs[j], m, id, FirstHost(net, m)) && HearsAcks(s.procs[k], n, id, FirstHost(net, m))
    requires RequestOf(net, m, id, FirstHost(net, m)) in s.wire
    ensures !NoSharedAddress(Run(net, s0, actions))
  {
    var address, request := FirstHost(net, m), RequestOf(net, m, id, FirstHost(net, m));
    var p, q;
    actions := AckMade(net, s0, before, s, m, id);
    var s' := s.(wire := s.wire + {Granted(net, DHCPACK, request, address)});
    actions, p := TakeAck(net, s0, actions, s', j, m, id, request, address);
    s' := s'.(procs := s'.procs[j := p]);
    actions, q := TakeAck(net, s0, actions, s', k, n, id, request, address);
    s' := s'.(procs := s'.procs[k := q]);
    assert s'.procs[j].c.address == s'.procs[k].c.address == address;
  }

  /** Any two of any number of clients, with any transaction counters: one discovers until its
      counter meets the other's, and then both end up with the same non-zero address. */
  lemma AnyTwoCanShare(net: Net, s: System, j: nat, k: nat) returns (actions: seq<Action>)
    requires Initial(s) && j < |s.procs| && k < |s.procs| && j != k && CanServe(net, s.procs[j].c.mac)
    ensures !NoSharedAddress(Run(net, s, actions))
  {
    var id, s';
    actions, id := CountersMeet(net, s, j, k);
    var met := Run(net, s, actions);
    actions, s' := BothRequest(net, s, actions, met, j, k, id);
    actions := BothBind(net, s, actions, s', j, k, met.procs[j].c.mac, met.procs[k].c.mac, After(id));
  }

  // ---------- networks on which nobody gets an address ----------

  ghost predicate Barren(net: Net, s: System) {
    && Exact(s.table, net.interfaceIndex, net.address, net.mask)
    && (forall w :: w in s.wire ==> w.op == OP_BOOTREQUEST || w.mtype != DHCPACK)
    && (forall k :: 0 <= k < |s.procs| ==> s.procs[k].c.address == 0)
  }

  lemma NoAckFromBarren(net: Net, t: Table, w: Wire, io: Server.Outside)
    requires !Serves(net) || !HasHost(net)
    requires Exact(t, net.interfaceIndex, net.address, net.mask) && Server.OutsideReports(io, net.address, net.mask)
    ensures var b := Server.Respond(net.e, net.excluded, t, w, net.interfaceIndex, io).1;
      b.Some? ==> OnWire(b.value).mtype != DHCPACK
  {
    var (t', b) := Server.Respond(net.e, net.excluded, t, w, net.interfaceIndex, io);
    Server.RespondFaithful(net.e, net.excluded, t, w, net.interfaceIndex, io);
    Server.RespondKeepsExact(net.e, net.excluded, t, w, net.interfaceIndex, io,
                             net.interfaceIndex, net.address, net.mask);
    if Serves(net) && b.Some? {
      NoLease(net, t', w.mac);
    }
  }

  lemma NoLease(net: Net, t: Table, mac: Mac)
    requires Exact(t, net.interfaceIndex, net.address, net.mask) && !HasHost(net)
    ensures LeaseOf(t, Lease(net.interfaceIndex, mac)) == 0
  {
    var h := LeaseOf(t, Lease(net.interfaceIndex, mac));
    assert !Assignable(h, net.address, net.mask);
  }

  lemma ActKeepsBarren(net: Net, s: System, a: Action)
    requires !Serves(net) || !HasHost(net)
    requires Barren(net, s) && Enabled(net, s, a)
    ensures Barren(net, Act(net, s, a))
  {
    match a {
      case Evaluate(k, now1, now2) => C.SwitchSends(s.procs[k].c, now1, now2);
      case Hear(k, w, o) => C.HearingSets(s.procs[k].c, w, o);
      case TimeOut(k) =>
      case Serve(w, io) =>
        NoAckFromBarren(net, s.table, w, io);
        Server.RespondKeepsExact(net.e, net.excluded, s.table, w, net.interfaceIndex, io,
                                 net.interfaceIndex, net.address, net.mask);
    }
  }

  lemma {:induction false} RunKeepsBarren(net: Net, s: System, actions: seq<Action>)
    requires !Serves(net) || !HasHost(net)
    requires Barren(net, s)
    ensures Barren(net, Run(net, s, actions))
    decreases |actions|
  {
    if actions != [] {
      if Enabled(net, s, actions[0]) {
        ActKeepsBarren(net, s, actions[0]);
        RunKeepsBarren(net, Act(net, s, actions[0]), actions[1..]);
      } else {
        RunKeepsBarren(net, s, actions[1..]);
      }
    }
  }

  lemma {:induction false} RunKeepsClients(net: Net, s: System, actions: seq<Action>)
    ensures |Run(net, s, actions).procs| == |s.procs|
    decreases |actions|
  {
    if actions != [] {
      RunKeepsClients(net, if Enabled(net, s, actions[0]) then Act(net, s, actions[0]) else s, actions[1..]);
    }
  }

  // ---------- the exact condition ----------

  ghost predicate AlwaysSafe(net: Net, s: System) {
    forall actions :: NoSharedAddress(Run(net, s, actions))
  }

  /** No run from an initial state shares an address if and only if there is at most one client, or
      the server does not serve the interface, or it has no address to give. */
  lemma SafeIffNothingToShare(net: Net, s: System)
    requires Initial(s)
    ensures AlwaysSafe(net, s) <==> |s.procs| <= 1 || !Serves(net) || !HasHost(net)
  {
    if |s.procs| > 1 && Serves(net) && HasHost(net) {
      CanServeIffHasHost(net, s.procs[0].c.mac);
      var actions := AnyTwoCanShare(net, s, 0, 1);
      assert !NoSharedAddress(Run(net, s, actions));
    } else {
      forall actions ensures NoSharedAddress(Run(net, s, actions)) {
        RunKeepsClients(net, s, actions);
        if |s.procs| > 1 {
          assert Exact(EMPTY_TABLE, net.interfaceIndex, net.address, net.mask);
          RunKeepsBarren(net, s, actions);
        }
      }
    }
  }
}
