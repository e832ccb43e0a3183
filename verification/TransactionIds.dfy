/** From the transaction counters at the start to the ids on the wire: how long clients whose
    counters start apart are safe. */
module TransactionIds {
  import opened Words
  import opened Dhcp
  import opened DhcpMessage
  import opened Network
  import C = ClientMachine
  import Server

  /** The message has the id of the d-th message that this client sends from here on. */
  predicate IsNth(p: Process, w: Wire, d: nat) {
    w.mac == p.c.mac && w.xid == (p.c.nextId + d) % TWO_32
  }

  /** One of the clients sends the message, among the first counts[k] that it sends. */
  ghost predicate SentBy(procs: seq<Process>, counts: seq<nat>, w: Wire)
    requires |counts| == |procs|
  {
    exists k, d :: 0 <= k < |procs| && 0 <= d < counts[k] && IsNth(procs[k], w, d)
  }

  /** The client messages that are new on a wire after a run are all sent by the clients. */
  ghost predicate AllSentBy(s: System, wire: set<Wire>, counts: seq<nat>)
    requires |counts| == |s.procs|
  {
    forall w :: w in wire && w.op == OP_BOOTREQUEST ==> w in s.wire || SentBy(s.procs, counts, w)
  }

  /** A step in which nobody sends keeps every counter. */
  lemma CountersKept(net: Net, s: System, a: Action)
    requires Enabled(net, s, a) && !a.Evaluate?
    ensures var s' := Act(net, s, a);
      && |s'.procs| == |s.procs|
      && (forall k :: 0 <= k < |s.procs| ==>
            s'.procs[k].c.mac == s.procs[k].c.mac && s'.procs[k].c.nextId == s.procs[k].c.nextId)
      && (forall w :: w in s'.wire && w.op == OP_BOOTREQUEST ==> w in s.wire)
  {
    match a {
      case Hear(k, w, o) => C.HearingSets(s.procs[k].c, w, o);
      case TimeOut(k) =>
      case Serve(w, io) => Server.RespondFaithful(net.e, net.excluded, s.table, w, net.interfaceIndex, io);
    }
  }

  lemma AllSentKept(s: System, s': System, wire: set<Wire>, counts: seq<nat>)
    requires |counts| == |s.procs| == |s'.procs| && AllSentBy(s', wire, counts)
    requires forall k :: 0 <= k < |s.procs| ==>
               s'.procs[k].c.mac == s.procs[k].c.mac && s'.procs[k].c.nextId == s.procs[k].c.nextId
    requires forall w :: w in s'.wire && w.op == OP_BOOTREQUEST ==> w in s.wire
    ensures AllSentBy(s, wire, counts)
  {
    forall w | w in wire && w.op == OP_BOOTREQUEST && w !in s.wire ensures SentBy(s.procs, counts, w) {
      var k, d :| 0 <= k < |s.procs| && 0 <= d < counts[k] && IsNth(s'.procs[k], w, d);
      assert IsNth(s.procs[k], w, d);
    }
  }

  lemma NextId(id: U32, d: nat)
    ensures ((id + 1) % TWO_32 + d) % TWO_32 == (id + (d + 1)) % TWO_32
  {
  }

  /** A pass of the switch uses at most one id more. */
  lemma AllSentEvaluate(net: Net, s: System, k: nat, now1: U64, now2: U64, wire: set<Wire>, counts: seq<nat>)
    requires Enabled(net, s, Evaluate(k, now1, now2)) && |counts| == |s.procs|
    requires AllSentBy(Act(net, s, Evaluate(k, now1, now2)), wire, counts)
    ensures AllSentBy(s, wire, counts[k := counts[k] + 1])
  {
    var c := s.procs[k].c;
    C.SwitchSends(c, now1, now2);
    var s', more := Act(net, s, Evaluate(k, now1, now2)), counts[k := counts[k] + 1];
    forall w | w in wire && w.op == OP_BOOTREQUEST && w !in s.wire ensures SentBy(s.procs, more, w) {
      if w in s'.wire {
        assert IsNth(s.procs[k], w, 0);
      } else {
        var j, d :| 0 <= j < |s.procs| && 0 <= d < counts[j] && IsNth(s'.procs[j], w, d);
        NextId(c.nextId, d);
        if j == k && s'.procs[k].c.nextId != c.nextId {
          assert IsNth(s.procs[k], w, d + 1);
        } else {
          assert IsNth(s.procs[j], w, d);
        }
      }
    }
  }

  /** Over a run of n actions every client uses at most the n ids from its counter on. */
  lemma {:induction false} IdsOfRun(net: Net, s: System, actions: seq<Action>) returns (counts: seq<nat>)
    ensures |counts| == |s.procs| && forall k :: 0 <= k < |counts| ==> counts[k] <= |actions|
    ensures AllSentBy(s, Run(net, s, actions).wire, counts)
    decreases |actions|
  {
    if actions == [] {
      counts := seq(|s.procs|, _ => 0);
    } else {
      var a := actions[0];
      if !Enabled(net, s, a) {
        counts := IdsOfRun(net, s, actions[1..]);
      } else {
        counts := IdsOfRun(net, Act(net, s, a), actions[1..]);
        if a.Evaluate? {
          AllSentEvaluate(net, s, a.k, a.now1, a.now2, Run(net, s, actions).wire, counts);
          counts := counts[a.k := counts[a.k] + 1];
        } else {
          CountersKept(net, s, a);
          AllSentKept(s, Act(net, s, a), Run(net, s, actions).wire, counts);
        }
      }
    }
  }

  // ---------- counters that start apart ----------

  /** How far one counter is behind another, around the circle of 32-bit words. */
  function Distance(from: U32, to: U32): nat {
    (to - from) % TWO_32
  }

  ghost predicate Spread(s: System, n: nat) {
    forall j, k :: 0 <= j < |s.procs| && 0 <= k < |s.procs| && j != k ==>
      Distance(s.procs[j].c.nextId, s.procs[k].c.nextId) >= n
  }

  lemma MeetAt(a: U32, b: U32, d: nat, e: nat)
    requires (a + d) % TWO_32 == (b + e) % TWO_32 && d >= e
    ensures Distance(a, b) <= d - e
  {
    var x, y := (a + d) / TWO_32, (b + e) / TWO_32;
    assert b - a == (d - e) - TWO_32 * (x - y);
    ModAtMost(b - a, d - e, y - x);
  }

  lemma ModAtMost(z: int, r: nat, q: int)
    requires z == r + TWO_32 * q
    ensures z % TWO_32 <= r
  {
    assert z % TWO_32 == r % TWO_32;
  }

  lemma ApartMeansDifferent(a: U32, b: U32, d: nat, e: nat, n: nat)
    requires d < n && e < n && Distance(a, b) >= n && Distance(b, a) >= n
    ensures (a + d) % TWO_32 != (b + e) % TWO_32
  {
    if (a + d) % TWO_32 == (b + e) % TWO_32 {
      if d >= e {
        MeetAt(a, b, d, e);
      } else {
        MeetAt(b, a, e, d);
      }
    }
  }

  lemma SameIdSameIndex(s: System, n: nat, v: Wire, j: nat, d: nat, w: Wire, k: nat, e: nat)
    requires j < |s.procs| && k < |s.procs| && d < n && e < n && Spread(s, n)
    requires IsNth(s.procs[j], v, d) && IsNth(s.procs[k], w, e) && v.xid == w.xid
    ensures j == k
  {
    if j != k {
      ApartMeansDifferent(s.procs[j].c.nextId, s.procs[k].c.nextId, d, e, n);
    }
  }

  lemma SameIdSameClient(s: System, counts: seq<nat>, n: nat, v: Wire, w: Wire)
    requires |counts| == |s.procs| && (forall k :: 0 <= k < |counts| ==> counts[k] <= n) && Spread(s, n)
    requires SentBy(s.procs, counts, v) && SentBy(s.procs, counts, w) && v.xid == w.xid
    ensures v.mac == w.mac
  {
    var j, d :| 0 <= j < |s.procs| && 0 <= d < counts[j] && IsNth(s.procs[j], v, d);
    var k, e :| 0 <= k < |s.procs| && 0 <= e < counts[k] && IsNth(s.procs[k], w, e);
    SameIdSameIndex(s, n, v, j, d, w, k, e);
  }

  /** Counters at least n apart, in both directions, give disjoint ids for n actions. */
  lemma SpreadMeansDisjoint(net: Net, s: System, actions: seq<Action>)
    requires Initial(s) && Spread(s, |actions|)
    ensures DisjointRequestIds(Run(net, s, actions).wire)
  {
    var counts := IdsOfRun(net, s, actions);
    var wire := Run(net, s, actions).wire;
    forall v, w | v in wire && w in wire && IsRequest(v) && IsRequest(w) && v.xid == w.xid
      ensures v.mac == w.mac
    {
      assert SentBy(s.procs, counts, v) && SentBy(s.procs, counts, w);
      SameIdSameClient(s, counts, |actions|, v, w);
    }
  }

  /** Safety from the start state alone: clients whose counters start at least n apart share no
      address within n actions of the whole system. */
  lemma NoSharingWhileSpread(net: Net, s: System, actions: seq<Action>)
    requires Initial(s) && DistinctMacs(s) && Spread(s, |actions|)
    ensures NoSharedAddress(Run(net, s, actions))
  {
    SpreadMeansDisjoint(net, s, actions);
    NoTwoClientsShareAnAddress(net, s, actions);
  }
}
