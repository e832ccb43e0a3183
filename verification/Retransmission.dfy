/** How often and for how long the client asks: quiet runs of rounds, and the waits in time. */
module Retransmission {
  import opened Words
  import opened Dhcp
  import opened DhcpMessage
  import opened Timers
  import opened ClientMachine
  import opened ClientAnswers

  // ---------- runs without an answer ----------

  /** Every wait of the run goes on until its time runs out, and no poll brings an answer: no offer, no
      refusal, no acknowledgement that can be put into effect. Anything else may arrive or fail. */
  predicate Quiet(c: Client, rs: seq<Round>)
    decreases |rs|
  {
    rs == [] || (QuietWait(Started(c, rs[0]), rs[0]) && Quiet(AfterRound(c, rs[0]), rs[1..]))
  }

  predicate QuietWait(c1: Client, r: Round) {
    c1.nextTimeout != NO_TIMEOUT ==>
      NoAnswer(c1, r.polls) && LeftAfter(CalculateTimeout(c1, r.adjustment), r.polls).None?
  }

  /** The messages the rounds send. */
  function Sent(c: Client, rs: seq<Round>): seq<Wire>
    decreases |rs|
  {
    if rs == [] then []
    else
      var b := Evaluate(c, rs[0].now1, rs[0].now2).1;
      (if b.Some? then [OnWire(b.value)] else []) + Sent(AfterRound(c, rs[0]), rs[1..])
  }

  /** The timeouts they wait with. */
  function Waits(c: Client, rs: seq<Round>): seq<nat>
    decreases |rs|
  {
    if rs == [] then []
    else
      var c1 := Started(c, rs[0]);
      (if c1.nextTimeout == NO_TIMEOUT then [] else [CalculateTimeout(c1, rs[0].adjustment)])
      + Waits(AfterRound(c, rs[0]), rs[1..])
  }

  function TotalWait(c: Client, rs: seq<Round>): nat
    decreases |rs|
  {
    if rs == [] then 0
    else
      var c1 := Started(c, rs[0]);
      (if c1.nextTimeout == NO_TIMEOUT then 0 else CalculateTimeout(c1, rs[0].adjustment))
      + TotalWait(AfterRound(c, rs[0]), rs[1..])
  }

  predicate AfterTransmissions(c: Client, k: nat) {
    c.fuzz && c.nextTimeout == Backoff(k)
  }

  predicate AllAsk(ws: seq<Wire>, address: U32, server: U32) {
    forall k :: 0 <= k < |ws| ==> Asks(ws[k], address, server)
  }

  predicate Discovers(w: Wire, mac: Mac) {
    w.wellFormed && w.op == OP_BOOTREQUEST && w.mtype == DHCPDISCOVER && w.requestedIp == 0 && w.mac == mac
  }

  predicate AllDiscover(ws: seq<Wire>, mac: Mac) {
    forall k :: 0 <= k < |ws| ==> Discovers(ws[k], mac)
  }

  /** A round in which a client of this state sends and then waits for an answer. */
  predicate Transmits(c: Client, r: Round) {
    c.state == Selecting || (Asking(c) && c.nextTimeout < MAX_TIMEOUT) || (c.state == Renewing && r.now1 < c.t2)
  }

  lemma QuietKeeps(c: Client, r: Round)
    requires Quiet(c, [r])
    ensures Kept(Started(c, r), AfterRound(c, r)) && OneRound(c, r).Returned?
  {
    var c1 := Started(c, r);
    if c1.nextTimeout != NO_TIMEOUT {
      UnansweredWait(c1, CalculateTimeout(c1, r.adjustment), r.polls);
    }
  }

  /** What the switch does in a transmitting state: one message, and the next timeout of the series. */
  lemma TransmitStep(c: Client, r: Round, k: nat)
    requires Transmits(c, r) && AfterTransmissions(c, k)
    ensures var c1 := Started(c, r);
      && c1.state == c.state && AfterTransmissions(c1, k + 1)
      && c1.requestAddress == c.requestAddress && c1.serverAddress == c.serverAddress && c1.mac == c.mac
      && c1.t2 == c.t2
      && CalculateTimeout(c1, r.adjustment) == Backoff(k + 1) + r.adjustment
  {
  }

  /** A quiet round in a transmitting state sends one message, waits once, and stays in the state. */
  lemma QuietRound(c: Client, r: Round, k: nat)
    requires Transmits(c, r) && AfterTransmissions(c, k) && Quiet(c, [r])
    ensures var c' := AfterRound(c, r);
      && c'.state == c.state && AfterTransmissions(c', k + 1)
      && c'.requestAddress == c.requestAddress && Destination(c') == Destination(c) && c'.mac == c.mac
      && |Sent(c, [r])| == 1
      && (if c.state == Selecting then AllDiscover(Sent(c, [r]), c.mac)
          else AllAsk(Sent(c, [r]), c.requestAddress, Destination(c)))
      && Waits(c, [r]) == [Backoff(k + 1) + r.adjustment] && TotalWait(c, [r]) == Backoff(k + 1) + r.adjustment
  {
    TransmitStep(c, r, k);
    QuietKeeps(c, r);
    OneSent(c, r);
    if c.state == Selecting {
      DiscoverRead(FromClient(c.mac, c.nextId));
    } else {
      AsksForAddress(c, r);
    }
  }

  /** Every clock reading of the run comes before T2, as it then is. */
  predicate BeforeT2(c: Client, rs: seq<Round>)
    decreases |rs|
  {
    rs == [] || (rs[0].now1 < c.t2 && BeforeT2(AfterRound(c, rs[0]), rs[1..]))
  }

  /** The timeouts of rounds that follow k transmissions: 4, 8, 16, 32 and from then on 64 seconds. */
  predicate InSeries(waits: seq<nat>, k: nat, rs: seq<Round>) {
    |waits| == |rs| && forall i :: 0 <= i < |rs| ==> waits[i] == Backoff(k + 1 + i) + rs[i].adjustment
  }

  lemma SeriesJoin(first: seq<nat>, rest: seq<nat>, k: nat, rs: seq<Round>)
    requires rs != [] && first == [Backoff(k + 1) + rs[0].adjustment] && InSeries(rest, k + 1, rs[1..])
    ensures InSeries(first + rest, k, rs)
  {
    forall i | 0 <= i < |rs| ensures (first + rest)[i] == Backoff(k + 1 + i) + rs[i].adjustment {
      if i > 0 {
        assert rs[1..][i - 1] == rs[i];
      }
    }
  }

  /** A renewing client that is not answered asks again and again until T2: after n rounds it is still
      renewing, has sent exactly n requests to the known server, and has waited for 4, 8, 16, 32, 64,
      64, ... seconds, each give or take one. */
  lemma {:induction false} RenewingRetransmits(c: Client, rs: seq<Round>, k: nat)
    requires c.state == Renewing && AfterTransmissions(c, k) && Quiet(c, rs) && BeforeT2(c, rs)
    ensures AfterRounds(c, rs).state == Renewing && AfterTransmissions(AfterRounds(c, rs), k + |rs|)
    ensures |Sent(c, rs)| == |rs| && AllAsk(Sent(c, rs), c.requestAddress, c.serverAddress)
    ensures InSeries(Waits(c, rs), k, rs)
    decreases |rs|
  {
    if rs != [] {
      var c' := AfterRound(c, rs[0]);
      FirstAndRest(c, rs);
      QuietRound(c, rs[0], k);
      RenewingRetransmits(c', rs[1..], k + 1);
      AskJoin(Sent(c, [rs[0]]), Sent(c', rs[1..]), c.requestAddress, c.serverAddress);
      SeriesJoin(Waits(c, [rs[0]]), Waits(c', rs[1..]), k, rs);
    }
  }

  /** Renewing asks the known server again until T2 expires, and then moves on without asking. */
  lemma RenewingUntilT2(c: Client, r: Round)
    requires c.state == Renewing
    ensures r.now1 >= c.t2 ==> AfterRound(c, r) == SetNextState(c, Rebinding) && Sent(c, [r]) == []
    ensures r.now1 < c.t2 ==> |Sent(c, [r])| == 1 && AllAsk(Sent(c, [r]), c.requestAddress, c.serverAddress)
  {
    OneSent(c, r);
    if r.now1 < c.t2 {
      AsksForAddress(c, r);
      var b := Evaluate(c, r.now1, r.now2).1;
      assert Sent(c, [r]) == [OnWire(b.value)];
    }
  }

  lemma OneSent(c: Client, r: Round)
    ensures var (c1, b) := Evaluate(c, r.now1, r.now2);
      && Sent(c, [r]) == (if b.Some? then [OnWire(b.value)] else [])
      && Waits(c, [r]) == (if c1.nextTimeout == NO_TIMEOUT then [] else [CalculateTimeout(c1, r.adjustment)])
      && TotalWait(c, [r]) == if c1.nextTimeout == NO_TIMEOUT then 0 else CalculateTimeout(c1, r.adjustment)
  {
    var c' := AfterRound(c, r);
    assert Sent(c', []) == [] && Waits(c', []) == [] && TotalWait(c', []) == 0;
    assert [r][1..] == [];
  }

  /** The sum of the base timeouts of transmissions k + 1 .. 5. */
  function BackoffSum(k: nat): nat
    requires k <= 5
    decreases 5 - k
  {
    if k == 5 then 0 else Backoff(k + 1) + BackoffSum(k + 1)
  }

  lemma AskJoin(a: seq<Wire>, b: seq<Wire>, address: U32, server: U32)
    requires AllAsk(a, address, server) && AllAsk(b, address, server)
    ensures AllAsk(a + b, address, server)
  {
  }

  lemma FirstAndRest(c: Client, rs: seq<Round>)
    requires rs != []
    ensures Sent(c, rs) == Sent(c, [rs[0]]) + Sent(AfterRound(c, rs[0]), rs[1..])
    ensures Waits(c, rs) == Waits(c, [rs[0]]) + Waits(AfterRound(c, rs[0]), rs[1..])
    ensures TotalWait(c, rs) == TotalWait(c, [rs[0]]) + TotalWait(AfterRound(c, rs[0]), rs[1..])
    ensures Quiet(c, rs) ==> Quiet(c, [rs[0]]) && Quiet(AfterRound(c, rs[0]), rs[1..])
  {
    OneSent(c, rs[0]);
    assert [rs[0]][1..] == [];
  }

  lemma LastRound(c: Client, r: Round)
    requires Asking(c) && AfterTransmissions(c, 5)
    ensures AfterRounds(c, [r]).state == Init && Sent(c, [r]) == [] && Waits(c, [r]) == [] && TotalWait(c, [r]) == 0
  {
    OneSent(c, r);
    assert AfterRounds(c, [r]) == AfterRound(c, r) by {
      assert [r][1..] == [];
    }
  }

  lemma {:induction false} GivesUpFrom(c: Client, rs: seq<Round>, k: nat)
    requires Asking(c) && AfterTransmissions(c, k) && k <= 5
    requires |rs| == 6 - k && Quiet(c, rs)
    ensures AfterRounds(c, rs).state == Init
    ensures |Sent(c, rs)| == 5 - k && AllAsk(Sent(c, rs), c.requestAddress, Destination(c))
    ensures BackoffSum(k) - 1000 * (5 - k) <= TotalWait(c, rs) <= BackoffSum(k) + 1000 * (5 - k)
    decreases |rs|
  {
    if k == 5 {
      assert rs == [rs[0]];
      LastRound(c, rs[0]);
    } else {
      var c' := AfterRound(c, rs[0]);
      FirstAndRest(c, rs);
      QuietRound(c, rs[0], k);
      GivesUpFrom(c', rs[1..], k + 1);
      AskJoin(Sent(c, [rs[0]]), Sent(c', rs[1..]), c.requestAddress, Destination(c));
    }
  }

  lemma {:induction false} GivesUpWaits(c: Client, rs: seq<Round>, k: nat)
    requires Asking(c) && AfterTransmissions(c, k) && k <= 5
    requires |rs| == 6 - k && Quiet(c, rs)
    ensures InSeries(Waits(c, rs), k, rs[..5 - k])
    decreases |rs|
  {
    if k == 5 {
      assert rs == [rs[0]];
      LastRound(c, rs[0]);
    } else {
      FirstAndRest(c, rs);
      QuietRound(c, rs[0], k);
      GivesUpWaits(AfterRound(c, rs[0]), rs[1..], k + 1);
      FrontJoin(Waits(c, [rs[0]]), Waits(AfterRound(c, rs[0]), rs[1..]), k, rs, 4 - k);
    }
  }

  lemma FrontJoin(first: seq<nat>, rest: seq<nat>, k: nat, rs: seq<Round>, n: nat)
    requires n < |rs| && first == [Backoff(k + 1) + rs[0].adjustment] && InSeries(rest, k + 1, rs[1..][..n])
    ensures InSeries(first + rest, k, rs[..n + 1])
  {
    var front := rs[..n + 1];
    assert front[0] == rs[0] && front[1..] == rs[1..][..n];
    SeriesJoin(first, rest, k, front);
  }

  lemma {:induction false} StaysUntilFive(c: Client, rs: seq<Round>, k: nat)
    requires Asking(c) && AfterTransmissions(c, k) && k + |rs| <= 5 && Quiet(c, rs)
    ensures AfterRounds(c, rs).state == c.state && AfterTransmissions(AfterRounds(c, rs), k + |rs|)
    decreases |rs|
  {
    if rs != [] {
      FirstAndRest(c, rs);
      QuietRound(c, rs[0], k);
      StaysUntilFive(AfterRound(c, rs[0]), rs[1..], k + 1);
    }
  }

  lemma {:induction false} QuietPrefix(c: Client, rs: seq<Round>, n: nat)
    requires n <= |rs| && Quiet(c, rs)
    ensures Quiet(c, rs[..n])
    decreases |rs|
  {
    if n > 0 {
      assert rs[..n][1..] == rs[1..][..n - 1];
      QuietPrefix(AfterRound(c, rs[0]), rs[1..], n - 1);
    }
  }

  /** From entering Requesting or Rebinding, with no NAK and no ACK that can be put into effect: five
      requests for the same address to the same server, waits of 4, 8, 16, 32 and 64 seconds, each give
      or take one, then back to Init in the sixth round and not before. */
  lemma GivesUpAfterFive(c: Client, rs: seq<Round>)
    requires Asking(c) && c.nextTimeout == NO_TIMEOUT && c.fuzz
    requires |rs| == 6 && Quiet(c, rs)
    ensures AfterRounds(c, rs).state == Init
    ensures |Sent(c, rs)| == 5 && AllAsk(Sent(c, rs), c.requestAddress, Destination(c))
    ensures InSeries(Waits(c, rs), 0, rs[..5]) && 119_000 <= TotalWait(c, rs) <= 129_000
    ensures forall n :: 0 <= n < 6 ==> AfterRounds(c, rs[..n]).state == c.state
  {
    assert BackoffSum(0) == 124_000 by {
      assert BackoffSum(3) == 96_000;
    }
    GivesUpFrom(c, rs, 0);
    GivesUpWaits(c, rs, 0);
    forall n | 0 <= n < 6 ensures AfterRounds(c, rs[..n]).state == c.state {
      QuietPrefix(c, rs, n);
      StaysUntilFive(c, rs[..n], 0);
    }
  }

  /** Selecting never gives up: after n quiet rounds it is still there, has sent n discovers, and has
      waited for the same series of timeouts. */
  lemma {:induction false} SelectingPersists(c: Client, rs: seq<Round>, k: nat)
    requires c.state == Selecting && AfterTransmissions(c, k) && Quiet(c, rs)
    ensures AfterRounds(c, rs).state == Selecting && AfterTransmissions(AfterRounds(c, rs), k + |rs|)
    ensures |Sent(c, rs)| == |rs| && AllDiscover(Sent(c, rs), c.mac)
    ensures InSeries(Waits(c, rs), k, rs)
    decreases |rs|
  {
    if rs != [] {
      var c' := AfterRound(c, rs[0]);
      FirstAndRest(c, rs);
      QuietRound(c, rs[0], k);
      SelectingPersists(c', rs[1..], k + 1);
      SeriesJoin(Waits(c, [rs[0]]), Waits(c', rs[1..]), k, rs);
    }
  }

  /** A client that starts, or starts over, goes straight on to Selecting and sends nothing before. */
  lemma InitSelects(c: Client, r: Round)
    requires c.state == Init
    ensures var c' := AfterRound(c, r);
      && OneRound(c, r).Returned? && c'.state == Selecting && AfterTransmissions(c', 0)
      && Sent(c, [r]) == [] && Waits(c, [r]) == [] && c'.mac == c.mac
  {
    OneSent(c, r);
  }

  // ---------- the wait in time ----------

  /** The polls happen one after the other on a clock that does not run backwards or wrap, and ppoll
      reports a timeout only after the timeout. */
  ghost predicate WellTimed(timeout: U32, polls: seq<Poll>, since: U64)
    decreases |polls|
  {
    polls == [] ||
    (var p := polls[0];
     && since <= p.startedAt <= p.currentTime < CLOCK_LIMIT
     && (p.result.TimedOut? ==> p.startedAt + timeout <= p.currentTime)
     && WellTimed(Remaining(p, timeout), polls[1..], p.currentTime))
  }

  /** When the wait goes on, the new timeout is exactly the time left: nothing underflows, nothing is
      cut off, and it is not longer than before. */
  lemma RemainingExact(p: Poll, timeout: U32)
    requires p.startedAt <= p.currentTime < CLOCK_LIMIT && p.currentTime < EndOf(p, timeout)
    ensures Remaining(p, timeout) == p.startedAt + timeout - p.currentTime
    ensures 0 < Remaining(p, timeout) <= timeout
  {
  }

  /** A wait that ends without a change of state has lasted at least its timeout, whatever was
      received, failed or went wrong meanwhile; one that goes on has no more time left than it had. */
  lemma {:induction false} WaitsItOut(c: Client, timeout: U32, polls: seq<Poll>, since: U64)
    requires WellTimed(timeout, polls, since)
    ensures match Wait(c, timeout, polls)
      case Returned(c', at) => c'.state == c.state ==> at >= since + timeout
      case StillWaiting(_, left) => left <= timeout
    decreases |polls|
  {
    if polls != [] {
      var p := polls[0];
      var (c', over) := AfterPoll(c, p);
      PollMovesOrKeeps(c, p);
      if !over && p.currentTime < EndOf(p, timeout) {
        RemainingExact(p, timeout);
        WaitsItOut(c', Remaining(p, timeout), polls[1..], p.currentTime);
      }
    }
  }

  /** The clock at the end of a round that started at `since`. */
  function RoundEnd(c: Client, r: Round, since: U64): U64 {
    var end := OneRound(c, r);
    if end.Returned? && Started(c, r).nextTimeout != NO_TIMEOUT then end.at else since
  }

  /** The clock after a run of rounds that started at `since`. */
  function EndTime(c: Client, rs: seq<Round>, since: U64): U64
    decreases |rs|
  {
    if rs == [] then since else EndTime(AfterRound(c, rs[0]), rs[1..], RoundEnd(c, rs[0], since))
  }

  ghost predicate TimelyRound(c: Client, r: Round, since: U64) {
    var c1 := Started(c, r);
    c1.nextTimeout != NO_TIMEOUT ==> WellTimed(CalculateTimeout(c1, r.adjustment), r.polls, since)
  }

  ghost predicate Timely(c: Client, rs: seq<Round>, since: U64)
    decreases |rs|
  {
    rs == [] ||
    (TimelyRound(c, rs[0], since) && Timely(AfterRound(c, rs[0]), rs[1..], RoundEnd(c, rs[0], since)))
  }

  lemma QuietRoundTakesItsTime(c: Client, r: Round, since: U64)
    requires Quiet(c, [r]) && TimelyRound(c, r, since)
    ensures RoundEnd(c, r, since) >= since + TotalWait(c, [r])
  {
    OneSent(c, r);
    QuietKeeps(c, r);
    var c1 := Started(c, r);
    if c1.nextTimeout != NO_TIMEOUT {
      WaitsItOut(c1, CalculateTimeout(c1, r.adjustment), r.polls, since);
    }
  }

  lemma {:induction false} QuietRoundsTakeTheirTime(c: Client, rs: seq<Round>, since: U64)
    requires Quiet(c, rs) && Timely(c, rs, since)
    ensures EndTime(c, rs, since) >= since + TotalWait(c, rs)
    decreases |rs|
  {
    if rs != [] {
      FirstAndRest(c, rs);
      QuietRoundTakesItsTime(c, rs[0], since);
      QuietRoundsTakeTheirTime(AfterRound(c, rs[0]), rs[1..], RoundEnd(c, rs[0], since));
    }
  }

  /** A client that gives up has waited at least 119 seconds for an answer, whatever irrelevant
      messages, failed configurations and poll errors came in between. */
  lemma GivesUpNoSooner(c: Client, rs: seq<Round>, since: U64)
    requires Asking(c) && c.nextTimeout == NO_TIMEOUT && c.fuzz
    requires |rs| == 6 && Quiet(c, rs) && Timely(c, rs, since)
    ensures AfterRounds(c, rs).state == Init && EndTime(c, rs, since) >= since + 119_000
  {
    GivesUpAfterFive(c, rs);
    QuietRoundsTakeTheirTime(c, rs, since);
  }

  /** A bound client sleeps until T1: the wait is exactly the time T1 has left, cut to 32 bits, and when
      nothing is cut off the wait is over at T1 and not before, whatever arrives meanwhile. */
  lemma BoundSleepsUntilT1(c: Client, r: Round, since: U64)
    requires c.state == Bound && r.now1 < c.t1
    ensures var left := if c.t1 > r.now2 then c.t1 - r.now2 else 0;
      var end := OneRound(c, r);
      && CalculateTimeout(Started(c, r), r.adjustment) == left % TWO_32
      && (left % TWO_32 == 0 ==> end.Returned?)
      && (left < TWO_32 && r.now2 <= since && WellTimed(left, r.polls, since) && end.Returned? && left != 0 ==>
            end.at >= c.t1)
  {
    var c1 := Started(c, r);
    BoundUntilT1(c, r);
    if c1.nextTimeout != NO_TIMEOUT {
      var timeout := CalculateTimeout(c1, r.adjustment);
      if WellTimed(timeout, r.polls, since) {
        WaitsItOut(c1, timeout, r.polls, since);
      }
    }
  }

  /** The timespec given to ppoll is the timeout, exactly. */
  lemma TimespecExact(timeout: U32)
    ensures var sec := timeout / 1000;
      var nsec := (timeout - sec * 1000) * 1_000_000;
      0 <= nsec < 1_000_000_000 && sec * 1_000_000_000 + nsec == timeout * 1_000_000
  {
  }

  /** With a little-endian server the client, once it leaves Bound, passes through Renewing without
      sending anything: T2 has long expired. */
  lemma LittleEndianServerSkipsRenewing(c: Client, now1: U64, now2: U64, first: Round, second: Round)
    requires c.state == Bound && ConfiguredFrom(c, Little, now1, now2)
    requires now1 <= now2 < now1 + 76_695_844_000 && now2 < CLOCK_LIMIT
    requires first.now1 >= c.t1 && second.now1 >= first.now1
    ensures AfterRounds(c, [first, second]).state == Rebinding
    ensures Sent(c, [first, second]) == []
  {
    RenewalWindowIffBigEndian(c, Little, now1, now2);
    BoundUntilT1(c, first);
    var c1 := AfterRound(c, first);
    assert AfterRound(c1, second) == SetNextState(c1, Rebinding);
    assert [first, second][1..] == [second];
    OneSent(c1, second);
    assert AfterRounds(c1, [second]) == AfterRound(c1, second) by {
      assert [second][1..] == [];
    }
  }
}
