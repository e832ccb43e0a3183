/** Every round that the client program makes on the network is a sequence of the network's actions. */
module ClientRounds {
  import opened Words
  import opened DhcpMessage
  import opened Network
  import C = ClientMachine

  /** What a process is after a wait: still polling, or back at the switch. */
  function EndOfWait(e: C.WaitEnd): Process {
    Process(e.c, e.StillWaiting?)
  }

  /** The polls bring the client nothing for it that is not on the wire. */
  ghost predicate FromWire(c: C.Client, polls: seq<C.Poll>, wire: set<Wire>) {
    forall k :: 0 <= k < |polls| && polls[k].result.Readable? && polls[k].result.received.Some? ==>
      var w := polls[k].result.received.value;
      C.ForUs(c, w) ==> w in wire
  }

  /** What one poll does on the network: deliver a message, or nothing. */
  function Delivery(k: nat, p: C.Poll, wire: set<Wire>): seq<Action> {
    match p.result
    case Readable(Some(w), o) => if w in wire then [Hear(k, w, o)] else []
    case _ => []
  }

  function PollActions(k: nat, c: C.Client, timeout: U32, polls: seq<C.Poll>, wire: set<Wire>): seq<Action>
    decreases |polls|
  {
    if polls == [] then []
    else
      var p := polls[0];
      var (c', over) := C.AfterPoll(c, p);
      Delivery(k, p, wire) +
      (if over && !p.result.TimedOut? then []
       else if over || p.currentTime >= C.EndOf(p, timeout) then [TimeOut(k)]
       else PollActions(k, c', C.Remaining(p, timeout), polls[1..], wire))
  }

  function RoundActions(k: nat, c: C.Client, r: C.Round, wire: set<Wire>): seq<Action> {
    var (c1, b) := C.Evaluate(c, r.now1, r.now2);
    [Evaluate(k, r.now1, r.now2)] +
    (if c1.nextTimeout == C.NO_TIMEOUT then []
     else PollActions(k, c1, C.CalculateTimeout(c1, r.adjustment), r.polls, Broadcast(wire, b)))
  }

  /** A delivery changes the client as the poll does. */
  lemma DeliveryIsPoll(net: Net, s: System, k: nat, p: C.Poll)
    requires k < |s.procs| && s.procs[k].polling && FromWire(s.procs[k].c, [p], s.wire)
    ensures var (c', over) := C.AfterPoll(s.procs[k].c, p);
      Run(net, s, Delivery(k, p, s.wire)) ==
      s.(procs := s.procs[k := Process(c', !(over && !p.result.TimedOut?))])
  {
    var c := s.procs[k].c;
    assert s.procs[k := s.procs[k]] == s.procs;
    if p.result.Readable? && p.result.received.Some? {
      var w := p.result.received.value;
      assert [p][0] == p;
      if w in s.wire {
        RunOne(net, s, Hear(k, w, p.result.outcome));
      } else {
        assert !C.ForUs(c, w);
      }
    }
  }

  lemma SameFilter(c: C.Client, c': C.Client, polls: seq<C.Poll>, wire: set<Wire>)
    requires FromWire(c, polls, wire) && polls != [] && c'.lastXid == c.lastXid
    ensures FromWire(c, [polls[0]], wire) && FromWire(c', polls[1..], wire)
  {
    forall k | 0 <= k < |polls[1..]| && polls[1..][k].result.Readable? && polls[1..][k].result.received.Some?
      ensures C.ForUs(c', polls[1..][k].result.received.value) ==> polls[1..][k].result.received.value in wire
    {
      assert polls[1..][k] == polls[k + 1];
    }
  }

  lemma {:induction false} WaitIsRun(net: Net, s: System, k: nat, timeout: U32, polls: seq<C.Poll>)
    requires k < |s.procs| && s.procs[k].polling && FromWire(s.procs[k].c, polls, s.wire)
    ensures var c := s.procs[k].c;
      Run(net, s, PollActions(k, c, timeout, polls, s.wire)) ==
      s.(procs := s.procs[k := EndOfWait(C.Wait(c, timeout, polls))])
    decreases |polls|
  {
    var c := s.procs[k].c;
    if polls == [] {
      assert s.procs[k := s.procs[k]] == s.procs;
    } else {
      var p := polls[0];
      var (c', over) := C.AfterPoll(c, p);
      C.PollMovesOrKeeps(c, p);
      SameFilter(c, c', polls, s.wire);
      DeliveryIsPoll(net, s, k, p);
      var here := Process(c', !(over && !p.result.TimedOut?));
      var s1 := s.(procs := s.procs[k := here]);
      if over && !p.result.TimedOut? {
        assert Delivery(k, p, s.wire) + [] == Delivery(k, p, s.wire);
      } else if over || p.currentTime >= C.EndOf(p, timeout) {
        RunConcat(net, s, Delivery(k, p, s.wire), [TimeOut(k)]);
        RunOne(net, s1, TimeOut(k));
        assert s1.procs[k := Process(c', false)] == s.procs[k := Process(c', false)];
      } else {
        var rest := PollActions(k, c', C.Remaining(p, timeout), polls[1..], s.wire);
        RunConcat(net, s, Delivery(k, p, s.wire), rest);
        WaitIsRun(net, s1, k, C.Remaining(p, timeout), polls[1..]);
        var end := EndOfWait(C.Wait(c, timeout, polls));
        assert s1.procs[k := end] == s.procs[k := end];
      }
    }
  }

  /** A round of one client, whose polls bring it messages of the wire and anything that is not for
      it, is a run of the network: it ends with the same client, the same message broadcast, and
      everything else as it was. */
  lemma RoundIsRun(net: Net, s: System, k: nat, r: C.Round)
    requires k < |s.procs| && !s.procs[k].polling
    requires var (c1, b) := C.Evaluate(s.procs[k].c, r.now1, r.now2);
      FromWire(c1, r.polls, Broadcast(s.wire, b))
    ensures var c := s.procs[k].c;
      Run(net, s, RoundActions(k, c, r, s.wire)) ==
      s.(procs := s.procs[k := EndOfWait(C.OneRound(c, r))],
         wire := Broadcast(s.wire, C.Evaluate(c, r.now1, r.now2).1))
  {
    var c := s.procs[k].c;
    var (c1, b) := C.Evaluate(c, r.now1, r.now2);
    var evaluate, wire := Evaluate(k, r.now1, r.now2), Broadcast(s.wire, b);
    var s1 := Act(net, s, evaluate);
    RunOne(net, s, evaluate);
    if c1.nextTimeout == C.NO_TIMEOUT {
      assert RoundActions(k, c, r, s.wire) == [evaluate];
    } else {
      var timeout := C.CalculateTimeout(c1, r.adjustment);
      RunConcat(net, s, [evaluate], PollActions(k, c1, timeout, r.polls, wire));
      WaitIsRun(net, s1, k, timeout, r.polls);
      var end := EndOfWait(C.OneRound(c, r));
      assert s1.procs[k := end] == s.procs[k := end];
    }
  }
}
