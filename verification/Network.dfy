/** Any number of clients and one server on a broadcast network that may lose, duplicate and
    reorder messages. */
module Network {
  import opened Words
  import opened Dhcp
  import opened DhcpMessage
  import opened LeaseAllocator
  import C = ClientMachine
  import Server

  /** The server's side: byte order, interface, and the interface's fixed address and netmask. */
  datatype Net = Net(e: Endian, excluded: U32, interfaceIndex: U32, address: U32, mask: U32)

  /** A client and whether it is in its poll loop. */
  datatype Process = Process(c: C.Client, polling: bool)

  /** `wire` holds every message ever sent: delivery takes any of them, any number of times. */
  datatype System = System(table: Table, procs: seq<Process>, wire: set<Wire>)

  datatype Action =
    | Evaluate(k: nat, now1: U64, now2: U64)
    | Hear(k: nat, w: Wire, outcome: C.Outcome)
    | TimeOut(k: nat)
    | Serve(w: Wire, io: Server.Outside)

  predicate Enabled(net: Net, s: System, a: Action) {
    match a
    case Evaluate(k, _, _) => k < |s.procs| && !s.procs[k].polling
    case Hear(k, w, _) => k < |s.procs| && s.procs[k].polling && w in s.wire
    case TimeOut(k) => k < |s.procs| && s.procs[k].polling
    case Serve(w, io) => w in s.wire && Server.OutsideReports(io, net.address, net.mask)
  }

  function Broadcast(wire: set<Wire>, b: Option<Built>): set<Wire> {
    if b.Some? then wire + {OnWire(b.value)} else wire
  }

  function Act(net: Net, s: System, a: Action): System
    requires Enabled(net, s, a)
  {
    match a
    case Evaluate(k, now1, now2) =>
      var (c, b) := C.Evaluate(s.procs[k].c, now1, now2);
      s.(procs := s.procs[k := Process(c, c.nextTimeout != C.NO_TIMEOUT)], wire := Broadcast(s.wire, b))
    case Hear(k, w, outcome) =>
      var (c, over) := C.Hear(s.procs[k].c, w, outcome);
      s.(procs := s.procs[k := Process(c, !over)])
    case TimeOut(k) => s.(procs := s.procs[k := s.procs[k].(polling := false)])
    case Serve(w, io) =>
      var (t, b) := Server.Respond(net.e, net.excluded, s.table, w, net.interfaceIndex, io);
      s.(table := t, wire := Broadcast(s.wire, b))
  }

  /** A run: actions that are not enabled do nothing. */
  function Run(net: Net, s: System, actions: seq<Action>): System
    decreases |actions|
  {
    if actions == [] then s
    else Run(net, if Enabled(net, s, actions[0]) then Act(net, s, actions[0]) else s, actions[1..])
  }

  lemma {:induction false} RunConcat(net: Net, s: System, a: seq<Action>, b: seq<Action>)
    ensures Run(net, s, a + b) == Run(net, Run(net, s, a), b)
    decreases |a|
  {
    if a == [] {
      assert a + b == b;
    } else {
      assert (a + b)[1..] == a[1..] + b;
      RunConcat(net, if Enabled(net, s, a[0]) then Act(net, s, a[0]) else s, a[1..], b);
    }
  }

  lemma RunOne(net: Net, s: System, a: Action)
    requires Enabled(net, s, a)
    ensures Run(net, s, [a]) == Act(net, s, a)
  {
    assert [a][1..] == [];
  }

  predicate Initial(s: System) {
    && s.table == EMPTY_TABLE && s.wire == {}
    && forall k :: 0 <= k < |s.procs| ==> C.IsFresh(s.procs[k].c) && !s.procs[k].polling
  }

  ghost predicate DistinctMacs(s: System) {
    forall j, k :: 0 <= j < |s.procs| && 0 <= k < |s.procs| && s.procs[j].c.mac == s.procs[k].c.mac ==> j == k
  }

  predicate IsRequest(w: Wire) {
    w.op == OP_BOOTREQUEST && w.mtype == DHCPREQUEST
  }

  /** No two clients have used one transaction id in a DHCPREQUEST. */
  ghost predicate DisjointRequestIds(wire: set<Wire>) {
    forall v, w :: v in wire && w in wire && IsRequest(v) && IsRequest(w) && v.xid == w.xid ==> v.mac == w.mac
  }

  /** What the protocol is for: an address in use belongs to one client. */
  ghost predicate NoSharedAddress(s: System) {
    forall j, k :: 0 <= j < |s.procs| && 0 <= k < |s.procs| && j != k && s.procs[j].c.address != 0 ==>
      s.procs[j].c.address != s.procs[k].c.address
  }

  // ---------- the invariant ----------

  ghost predicate Asked(wire: set<Wire>, xid: U32, mac: Mac) {
    exists v :: v in wire && IsRequest(v) && v.xid == xid && v.mac == mac
  }

  /** An ack answers a request, with the lease of the client it names. */
  ghost predicate ReplyInOrder(net: Net, t: Table, wire: set<Wire>, w: Wire) {
    w.mtype == DHCPACK ==>
      Asked(wire, w.xid, w.mac) && w.yiaddr == LeaseOf(t, Lease(net.interfaceIndex, w.mac)) != 0
  }

  /** The last request of a client that waits for an answer is on the wire, and its address is its
      own lease. */
  ghost predicate ProcessInOrder(net: Net, t: Table, wire: set<Wire>, p: Process) {
    && (p.polling && C.AwaitsAnswer(p.c.state) ==> Asked(wire, p.c.lastXid, p.c.mac))
    && p.c.address in {0, LeaseOf(t, Lease(net.interfaceIndex, p.c.mac))}
  }

  ghost predicate WireInOrder(net: Net, s: System) {
    forall w :: w in s.wire ==>
      w.op == OP_BOOTREQUEST || (w.op == OP_BOOTREPLY && ReplyInOrder(net, s.table, s.wire, w))
  }

  ghost predicate ProcsInOrder(net: Net, s: System) {
    forall k :: 0 <= k < |s.procs| ==> ProcessInOrder(net, s.table, s.wire, s.procs[k])
  }

  ghost predicate InOrder(net: Net, s: System) {
    && Exact(s.table, net.interfaceIndex, net.address, net.mask)
    && WireInOrder(net, s) && ProcsInOrder(net, s)
  }

  // ---------- every step keeps it ----------

  /** The wire and the leases only grow. */
  ghost predicate Grows(t: Table, wire: set<Wire>, t': Table, wire': set<Wire>) {
    && wire <= wire'
    && forall l: Lease :: LeaseOf(t, l) != 0 ==> LeaseOf(t', l) == LeaseOf(t, l)
  }

  lemma GrowthKeepsReply(net: Net, t: Table, wire: set<Wire>, t': Table, wire': set<Wire>, w: Wire)
    requires Grows(t, wire, t', wire') && ReplyInOrder(net, t, wire, w)
    ensures ReplyInOrder(net, t', wire', w)
  {
  }

  lemma GrowthKeepsProcess(net: Net, t: Table, wire: set<Wire>, t': Table, wire': set<Wire>, p: Process)
    requires Grows(t, wire, t', wire') && ProcessInOrder(net, t, wire, p)
    ensures ProcessInOrder(net, t', wire', p)
  {
  }

  lemma EvaluateKeepsProcess(net: Net, s: System, k: nat, now1: U64, now2: U64)
    requires k < |s.procs| && !s.procs[k].polling && ProcessInOrder(net, s.table, s.wire, s.procs[k])
    ensures var (c, b) := C.Evaluate(s.procs[k].c, now1, now2);
      && ProcessInOrder(net, s.table, Broadcast(s.wire, b), Process(c, c.nextTimeout != C.NO_TIMEOUT))
      && c.mac == s.procs[k].c.mac
      && (b.Some? ==> OnWire(b.value).op == OP_BOOTREQUEST)
  {
    var (c, b) := C.Evaluate(s.procs[k].c, now1, now2);
    C.SwitchSends(s.procs[k].c, now1, now2);
    if b.Some? && s.procs[k].c.state != C.Selecting {
      assert OnWire(b.value) in Broadcast(s.wire, b) && IsRequest(OnWire(b.value));
      assert Asked(Broadcast(s.wire, b), c.lastXid, c.mac);
    }
  }

  /** The heart of it: an accepted ack was sent for this very client. */
  lemma HearKeepsProcess(net: Net, s: System, k: nat, w: Wire, o: C.Outcome)
    requires k < |s.procs| && s.procs[k].polling && w in s.wire
    requires WireInOrder(net, s) && ProcessInOrder(net, s.table, s.wire, s.procs[k]) && DisjointRequestIds(s.wire)
    ensures var (c, over) := C.Hear(s.procs[k].c, w, o);
      && ProcessInOrder(net, s.table, s.wire, Process(c, !over))
      && c.mac == s.procs[k].c.mac
  {
    var c := s.procs[k].c;
    C.HearingSets(c, w, o);
    if C.ForUs(c, w) && w.mtype == DHCPACK && C.AwaitsAnswer(c.state) {
      var v :| v in s.wire && IsRequest(v) && v.xid == w.xid && v.mac == w.mac;
      var u :| u in s.wire && IsRequest(u) && u.xid == c.lastXid && u.mac == c.mac;
      assert w.mac == c.mac;
    }
  }

  lemma ServeKeepsOrder(net: Net, s: System, w: Wire, io: Server.Outside)
    requires InOrder(net, s) && Enabled(net, s, Serve(w, io))
    ensures InOrder(net, Act(net, s, Serve(w, io)))
  {
    var (t, b) := Server.Respond(net.e, net.excluded, s.table, w, net.interfaceIndex, io);
    Server.RespondFaithful(net.e, net.excluded, s.table, w, net.interfaceIndex, io);
    Server.RespondKeepsExact(net.e, net.excluded, s.table, w, net.interfaceIndex, io,
                             net.interfaceIndex, net.address, net.mask);
    ServedWire(net, s, t, w, b);
  }

  lemma ServedWire(net: Net, s: System, t: Table, w: Wire, b: Option<Built>)
    requires InOrder(net, s) && w in s.wire
    requires Exact(t, net.interfaceIndex, net.address, net.mask)
    requires forall l: Lease :: LeaseOf(s.table, l) != 0 ==> LeaseOf(t, l) == LeaseOf(s.table, l)
    requires b.Some? ==>
               w.op == OP_BOOTREQUEST && Server.Faithful(Server.Sent(net.interfaceIndex, w, OnWire(b.value)), t)
    ensures InOrder(net, s.(table := t, wire := Broadcast(s.wire, b)))
  {
    var s' := s.(table := t, wire := Broadcast(s.wire, b));
    assert Grows(s.table, s.wire, t, s'.wire);
    forall x | x in s'.wire && x.op != OP_BOOTREQUEST
      ensures x.op == OP_BOOTREPLY && ReplyInOrder(net, t, s'.wire, x)
    {
      if x in s.wire {
        GrowthKeepsReply(net, s.table, s.wire, t, s'.wire, x);
      } else {
        assert w in s'.wire;
        assert x.mtype == DHCPACK ==> IsRequest(w) && Asked(s'.wire, x.xid, x.mac);
      }
    }
    forall k | 0 <= k < |s.procs| ensures ProcessInOrder(net, t, s'.wire, s.procs[k]) {
      GrowthKeepsProcess(net, s.table, s.wire, t, s'.wire, s.procs[k]);
    }
  }

  /** Replacing one process, and perhaps adding a request to the wire. */
  lemma ReplaceKeepsOrder(net: Net, s: System, k: nat, p: Process, wire: set<Wire>)
    requires InOrder(net, s) && k < |s.procs| && s.wire <= wire
    requires forall w :: w in wire ==> w in s.wire || w.op == OP_BOOTREQUEST
    requires ProcessInOrder(net, s.table, wire, p)
    ensures InOrder(net, s.(procs := s.procs[k := p], wire := wire))
  {
    forall w | w in wire && w.op != OP_BOOTREQUEST
      ensures w.op == OP_BOOTREPLY && ReplyInOrder(net, s.table, wire, w)
    {
      GrowthKeepsReply(net, s.table, s.wire, s.table, wire, w);
    }
    forall j | 0 <= j < |s.procs| && j != k ensures ProcessInOrder(net, s.table, wire, s.procs[j]) {
      GrowthKeepsProcess(net, s.table, s.wire, s.table, wire, s.procs[j]);
    }
  }

  lemma ActKeepsOrder(net: Net, s: System, a: Action)
    requires InOrder(net, s) && Enabled(net, s, a) && DisjointRequestIds(s.wire)
    ensures InOrder(net, Act(net, s, a))
    ensures s.wire <= Act(net, s, a).wire
    ensures |Act(net, s, a).procs| == |s.procs|
    ensures forall k :: 0 <= k < |s.procs| ==> Act(net, s, a).procs[k].c.mac == s.procs[k].c.mac
  {
    match a {
      case Evaluate(k, now1, now2) =>
        EvaluateKeepsProcess(net, s, k, now1, now2);
        var (c, b) := C.Evaluate(s.procs[k].c, now1, now2);
        ReplaceKeepsOrder(net, s, k, Process(c, c.nextTimeout != C.NO_TIMEOUT), Broadcast(s.wire, b));
      case Hear(k, w, o) =>
        HearKeepsProcess(net, s, k, w, o);
        var (c, over) := C.Hear(s.procs[k].c, w, o);
        ReplaceKeepsOrder(net, s, k, Process(c, !over), s.wire);
      case TimeOut(k) =>
        ReplaceKeepsOrder(net, s, k, s.procs[k].(polling := false), s.wire);
      case Serve(w, io) =>
        ServeKeepsOrder(net, s, w, io);
    }
  }

  lemma {:induction false} RunGrows(net: Net, s: System, actions: seq<Action>)
    ensures s.wire <= Run(net, s, actions).wire
    decreases |actions|
  {
    if actions != [] {
      var s' := if Enabled(net, s, actions[0]) then Act(net, s, actions[0]) else s;
      assert s.wire <= s'.wire;
      RunGrows(net, s', actions[1..]);
    }
  }

  lemma {:induction false} RunKeepsOrder(net: Net, s: System, actions: seq<Action>)
    requires InOrder(net, s) && DistinctMacs(s) && DisjointRequestIds(Run(net, s, actions).wire)
    ensures InOrder(net, Run(net, s, actions)) && DistinctMacs(Run(net, s, actions))
    decreases |actions|
  {
    if actions != [] {
      RunGrows(net, s, actions);
      var s' := if Enabled(net, s, actions[0]) then Act(net, s, actions[0]) else s;
      if Enabled(net, s, actions[0]) {
        ActKeepsOrder(net, s, actions[0]);
      }
      RunKeepsOrder(net, s', actions[1..]);
    }
  }

  lemma OrderMeansNoSharing(net: Net, s: System)
    requires InOrder(net, s) && DistinctMacs(s)
    ensures NoSharedAddress(s)
  {
    forall j, k | 0 <= j < |s.procs| && 0 <= k < |s.procs| && j != k && s.procs[j].c.address != 0
      ensures s.procs[j].c.address != s.procs[k].c.address
    {
      var a, b := Lease(net.interfaceIndex, s.procs[j].c.mac), Lease(net.interfaceIndex, s.procs[k].c.mac);
      assert ProcessInOrder(net, s.table, s.wire, s.procs[j]) && ProcessInOrder(net, s.table, s.wire, s.procs[k]);
      assert LeaseOf(s.table, a) == LeaseOf(s.table, b) != 0 ==> a.mac == b.mac;
    }
  }

  /** Safety of the whole system: as long as no two clients have used one transaction id in a request,
      in every reachable state each client's address is zero or the server's lease for its MAC, and no two
      clients carry the same non-zero address. */
  lemma NoTwoClientsShareAnAddress(net: Net, s: System, actions: seq<Action>)
    requires Initial(s) && DistinctMacs(s)
    requires DisjointRequestIds(Run(net, s, actions).wire)
    ensures var s' := Run(net, s, actions);
      && NoSharedAddress(s')
      && forall k :: 0 <= k < |s'.procs| ==>
           s'.procs[k].c.address in {0, LeaseOf(s'.table, Lease(net.interfaceIndex, s'.procs[k].c.mac))}
  {
    assert Exact(EMPTY_TABLE, net.interfaceIndex, net.address, net.mask);
    RunKeepsOrder(net, s, actions);
    var s' := Run(net, s, actions);
    OrderMeansNoSharing(net, s');
    forall k | 0 <= k < |s'.procs|
      ensures s'.procs[k].c.address in {0, LeaseOf(s'.table, Lease(net.interfaceIndex, s'.procs[k].c.mac))}
    {
      assert ProcessInOrder(net, s'.table, s'.wire, s'.procs[k]);
    }
  }
}
