/** What ends a client's wait, told from what its polls bring; and what is left behind by each answer. */
module ClientAnswers {
  import opened Words
  import opened Dhcp
  import opened DhcpMessage
  import opened ClientMachine

  // ---------- answers ----------

  /** The poll brings a reply of this type under the client's last transaction id. */
  predicate Brings(c: Client, p: Poll, kind: Byte) {
    && p.result.Readable? && p.result.received.Some?
    && var w := p.result.received.value;
       w.wellFormed && w.op == OP_BOOTREPLY && w.xid == c.lastXid && w.mtype == kind
  }

  /** An acknowledgement that can be put into effect: its options can be read, it names a lease time,
      and no call that matters fails. */
  predicate Configurable(c: Client, w: Wire, o: Outcome) {
    w.infoOk && w.info.leaseTime != 0 && o.link && o.setting == Done && (c.noGateway || o.gateway)
  }

  /** The poll brings what this state waits for. */
  predicate Answers(c: Client, p: Poll) {
    match c.state
    case Selecting => Brings(c, p, DHCPOFFER)
    case Init => false
    case Bound => false
    case _ =>
      || Brings(c, p, DHCPNAK)
      || (Brings(c, p, DHCPACK) && Configurable(c, p.result.received.value, p.result.outcome))
  }

  /** The state an answer leads to. */
  function Next(c: Client, p: Poll): State {
    if c.state == Selecting then Requesting else if Brings(c, p, DHCPNAK) then Init else Bound
  }

  /** A poll ends the wait if and only if it times out or brings an answer. Otherwise the client goes
      on in the same state with the same timeout, and nothing but an acknowledgement that could not be
      put into effect leaves any trace. */
  lemma AnswerEndsWait(c: Client, p: Poll)
    ensures var (c', over) := AfterPoll(c, p);
      && (over <==> p.result.TimedOut? || Answers(c, p))
      && (!Answers(c, p) ==> Kept(c, c'))
      && (!Answers(c, p) && !(AwaitsAnswer(c.state) && Brings(c, p, DHCPACK)) ==> c' == c)
  {
    if p.result.Readable? && p.result.received.Some? {
      HearMovesOrKeeps(c, p.result.received.value, p.result.outcome);
      if AwaitsAnswer(c.state) && Brings(c, p, DHCPACK) {
        AckEndsWait(c, p.result.received.value, p.result.outcome);
      }
    }
  }

  /** In Requesting, Renewing and Rebinding an acknowledgement leads to Bound if and only if it can be
      put into effect; otherwise the wait goes on as it was. */
  lemma AckEndsWait(c: Client, w: Wire, o: Outcome)
    requires AwaitsAnswer(c.state) && ForUs(c, w) && w.mtype == DHCPACK
    ensures var (c', over) := Hear(c, w, o);
      && (over <==> Configurable(c, w, o))
      && c'.state == (if Configurable(c, w, o) then Bound else c.state)
      && (!Configurable(c, w, o) ==> c'.nextTimeout == c.nextTimeout && c'.fuzz == c.fuzz)
  {
  }

  // ---------- what an acknowledgement leaves behind ----------

  /** Deadlines from the timers of the message, or one half and seven eighths of its lease time. */
  predicate TimersFrom(c: Client, w: Wire, o: Outcome) {
    && c.t1 == (o.now1 + 1000 * (if w.info.t1 != 0 then w.info.t1 else w.info.leaseTime / 2)) % TWO_64
    && c.t2 == (o.now2 + 1000 * (if w.info.t2 != 0 then w.info.t2 else 7 * w.info.leaseTime % TWO_32 / 8)) % TWO_64
  }

  /** Every acknowledgement, put into effect or not, field by field: how far the client got decides
      what it has changed. */
  lemma AckLeaves(c: Client, w: Wire, o: Outcome)
    requires AwaitsAnswer(c.state) && ForUs(c, w) && w.mtype == DHCPACK
    ensures var c' := Hear(c, w, o).0;
      var timed := w.infoOk && w.info.leaseTime != 0;
      var up := timed && o.link;
      var taken := up && o.setting != Failed;
      && c'.info == (if w.infoOk then w.info.(offeredAddress := w.yiaddr) else w.info)
      && (if timed then TimersFrom(c', w, o) else c'.t1 == c.t1 && c'.t2 == c.t2)
      && c'.device.up == (c.device.up || up)
      && c'.device.mtu == (if up && w.info.mtu != 0 && o.mtu then w.info.mtu else c.device.mtu)
      && c'.device.gateway == (if up && o.written[0] then w.info.gateway else c.device.gateway)
      && (forall k :: 0 <= k < 4 ==>
            c'.device.dns[k] == if up && o.written[k + 1] then w.info.dns[k] else c.device.dns[k])
      && c'.address == (if taken then w.yiaddr else c.address)
      && c'.device.mask == (if taken then w.info.subnetMask else c.device.mask)
      && c'.device.route ==
         (if up && o.setting == Done && !c.noGateway && o.gateway then w.info.gateway else c.device.route)
      && c'.requestAddress == c.requestAddress && c'.serverAddress == c.serverAddress
      && c'.lastXid == c.lastXid && c'.nextId == c.nextId && c'.mac == c.mac && c'.noGateway == c.noGateway
  {
    if w.infoOk && w.info.leaseTime != 0 && o.link {
      PublishedSets(c.device.(up := true), w.info.(offeredAddress := w.yiaddr), o);
    }
  }

  /** A refusal clears address and netmask and takes the interface down, as far as the calls succeed,
      and starts over. */
  lemma NakResets(c: Client, w: Wire, o: Outcome)
    requires AwaitsAnswer(c.state) && ForUs(c, w) && w.mtype == DHCPNAK
    ensures var (c', over) := Hear(c, w, o);
      && over && c'.state == Init && c'.nextTimeout == NO_TIMEOUT && c'.fuzz
      && c'.address == (if o.setting == Failed then c.address else 0)
      && c'.device == c.device.(mask := if o.setting == Failed then c.device.mask else 0,
                                up := c.device.up && !o.link)
      && c' == c.(state := Init, nextTimeout := c'.nextTimeout, fuzz := c'.fuzz, address := c'.address,
                  device := c'.device)
  {
  }

  /** An offer is taken: its server and its address are the ones to ask for. */
  lemma OfferTaken(c: Client, w: Wire, o: Outcome)
    requires c.state == Selecting && ForUs(c, w) && w.mtype == DHCPOFFER
    ensures Hear(c, w, o) ==
            (c.(state := Requesting, nextTimeout := 0, fuzz := true, serverAddress := w.serverId,
                requestAddress := w.yiaddr), true)
  {
  }

  // ---------- the wait, from its polls ----------

  /** The time left after these polls if none of them is answered; None if it runs out on the way. */
  function LeftAfter(timeout: U32, polls: seq<Poll>): Option<U32>
    decreases |polls|
  {
    if polls == [] then Some(timeout)
    else if polls[0].result.TimedOut? || polls[0].currentTime >= EndOf(polls[0], timeout) then None
    else LeftAfter(Remaining(polls[0], timeout), polls[1..])
  }

  predicate NoAnswer(c: Client, polls: seq<Poll>) {
    forall k :: 0 <= k < |polls| ==> !Answers(c, polls[k])
  }

  /** What does not answer a client does not answer it after a message that it kept going on. */
  lemma KeptAnswers(c: Client, c': Client, p: Poll)
    requires Kept(c, c')
    ensures Answers(c', p) == Answers(c, p)
  {
  }

  lemma KeptNoAnswer(c: Client, c': Client, polls: seq<Poll>)
    requires Kept(c, c') && NoAnswer(c, polls) && polls != []
    ensures NoAnswer(c', polls[1..])
  {
    forall k | 0 <= k < |polls[1..]| ensures !Answers(c', polls[1..][k]) {
      assert polls[1..][k] == polls[k + 1];
      KeptAnswers(c, c', polls[k + 1]);
    }
  }

  lemma KeptTwice(a: Client, b: Client, c: Client)
    requires Kept(a, b) && Kept(b, c)
    ensures Kept(a, c)
  {
  }

  /** Without an answer the wait returns exactly when its time has run out, and the client is as before
      but for what failed acknowledgements left. */
  lemma {:induction false} UnansweredWait(c: Client, timeout: U32, polls: seq<Poll>)
    requires NoAnswer(c, polls)
    ensures var end := Wait(c, timeout, polls);
      && Kept(c, end.c)
      && match LeftAfter(timeout, polls)
         case None => end.Returned?
         case Some(left) => end.StillWaiting? && end.timeout == left
    decreases |polls|
  {
    if polls != [] {
      var p := polls[0];
      var (c', over) := AfterPoll(c, p);
      AnswerEndsWait(c, p);
      if !over && p.currentTime < EndOf(p, timeout) {
        KeptNoAnswer(c, c', polls);
        UnansweredWait(c', Remaining(p, timeout), polls[1..]);
        KeptTwice(c, c', Wait(c, timeout, polls).c);
      }
    }
  }

  /** The first answer before the time runs out ends the wait, whatever the polls after it would be. */
  lemma {:induction false} AnsweredWait(c: Client, timeout: U32, before: seq<Poll>, p: Poll, after: seq<Poll>)
    returns (here: Client)
    requires NoAnswer(c, before) && LeftAfter(timeout, before).Some? && Answers(c, p)
    ensures Kept(c, here) && Answers(here, p)
    ensures Wait(c, timeout, before + [p] + after) == Returned(AfterPoll(here, p).0, p.currentTime)
    decreases |before|
  {
    var polls := before + [p] + after;
    if before == [] {
      here := c;
      assert polls[0] == p;
      AnswerEndsWait(c, p);
    } else {
      var q := before[0];
      assert polls[0] == q && polls[1..] == before[1..] + [p] + after;
      AnswerEndsWait(c, q);
      var c' := AfterPoll(c, q).0;
      KeptNoAnswer(c, c', before);
      KeptAnswers(c, c', p);
      here := AnsweredWait(c', Remaining(q, timeout), before[1..], p, after);
      KeptTwice(c, c', here);
    }
  }

  /** A wait that changes the state does so by an answer, to the state that answer leads to. */
  lemma {:induction false} WaitChangesByAnswer(c: Client, timeout: U32, polls: seq<Poll>) returns (k: nat)
    requires Wait(c, timeout, polls).c.state != c.state
    ensures k < |polls| && Answers(c, polls[k]) && Wait(c, timeout, polls).c.state == Next(c, polls[k])
    decreases |polls|
  {
    var p := polls[0];
    var (c', over) := AfterPoll(c, p);
    AnswerEndsWait(c, p);
    if Answers(c, p) {
      AnswerLeads(c, p);
      k := 0;
    } else {
      assert !over && p.currentTime < EndOf(p, timeout);
      k := WaitChangesByAnswer(c', Remaining(p, timeout), polls[1..]);
      KeptAnswers(c, c', polls[k + 1]);
      k := k + 1;
    }
  }

  lemma AnswerLeads(c: Client, p: Poll)
    requires Answers(c, p)
    ensures AfterPoll(c, p).0.state == Next(c, p)
  {
    if AwaitsAnswer(c.state) && Brings(c, p, DHCPACK) {
      AckEndsWait(c, p.result.received.value, p.result.outcome);
    }
  }

  // ---------- whole rounds ----------

  /** The client at the start of the wait of a round. */
  function Started(c: Client, r: Round): Client {
    Evaluate(c, r.now1, r.now2).0
  }

  /** A round whose first answer comes before its time runs out. */
  predicate Answered(c: Client, r: Round, before: seq<Poll>, p: Poll, after: seq<Poll>) {
    var c1 := Started(c, r);
    && c1.nextTimeout != NO_TIMEOUT && r.polls == before + [p] + after
    && NoAnswer(c1, before) && LeftAfter(CalculateTimeout(c1, r.adjustment), before).Some? && Answers(c1, p)
  }

  /** One whole round: the switch sends, the wait goes on through whatever is no answer, and the answer
      decides where the client is at the end of it. */
  lemma RoundAnswered(c: Client, r: Round, before: seq<Poll>, p: Poll, after: seq<Poll>) returns (here: Client)
    requires Answered(c, r, before, p, after)
    ensures Kept(Started(c, r), here) && Answers(here, p)
    ensures OneRound(c, r) == Returned(AfterPoll(here, p).0, p.currentTime)
    ensures AfterRound(c, r).state == Next(Started(c, r), p)
  {
    var c1 := Started(c, r);
    here := AnsweredWait(c1, CalculateTimeout(c1, r.adjustment), before, p, after);
    AnswerLeads(here, p);
  }

  /** A round in which a client asks for its address and an acknowledgement arrives, in any of the three
      states and behind any messages that are no answer, ends in Bound with what the message grants. */
  lemma AskAndBind(c: Client, r: Round, before: seq<Poll>, p: Poll, after: seq<Poll>)
    requires (Asking(c) && c.nextTimeout < MAX_TIMEOUT) || (c.state == Renewing && r.now1 < c.t2)
    requires r.polls == before + [p] + after
    requires var c1 := c.(lastXid := c.nextId);
      && NoAnswer(c1, before) && Brings(c1, p, DHCPACK)
      && Configurable(c, p.result.received.value, p.result.outcome)
    requires LeftAfter(CalculateTimeout(Started(c, r), r.adjustment), before).Some?
    ensures var c', w := AfterRound(c, r), p.result.received.value;
      && OneRound(c, r).Returned? && c'.state == Bound && c'.nextTimeout == NO_TIMEOUT && c'.fuzz
      && c'.address == w.yiaddr && c'.info == w.info.(offeredAddress := w.yiaddr) && TimersFrom(c', w, p.result.outcome)
      && c'.device.up && c'.device.mask == w.info.subnetMask
      && (!c.noGateway ==> c'.device.route == w.info.gateway)
      && c'.lastXid == c.nextId
  {
    var c1 := Started(c, r);
    forall k | 0 <= k < |before| ensures !Answers(c1, before[k]) {
      assert !Answers(c.(lastXid := c.nextId), before[k]);
    }
    var here := RoundAnswered(c, r, before, p, after);
    var w, o := p.result.received.value, p.result.outcome;
    AckEndsWait(here, w, o);
    AckLeaves(here, w, o);
  }

  /** In particular a renewing client whose first poll brings a good acknowledgement is bound again by
      the end of that very round. */
  lemma RenewingIsHeard(c: Client, r: Round)
    requires c.state == Renewing && r.now1 < c.t2 && r.polls != []
    requires Brings(c.(lastXid := c.nextId), r.polls[0], DHCPACK)
    requires Configurable(c, r.polls[0].result.received.value, r.polls[0].result.outcome)
    ensures AfterRound(c, r).state == Bound && AfterRound(c, r).address == r.polls[0].result.received.value.yiaddr
  {
    assert r.polls == [] + [r.polls[0]] + r.polls[1..];
    AskAndBind(c, r, [], r.polls[0], r.polls[1..]);
  }

  /** A client in Requesting or Rebinding that falls back to Init has asked five times or been refused. */
  lemma WhyInit(c: Client, r: Round)
    requires AwaitsAnswer(c.state) && AfterRound(c, r).state == Init
    ensures (Asking(c) && c.nextTimeout >= MAX_TIMEOUT) ||
            exists k :: 0 <= k < |r.polls| && Brings(Started(c, r), r.polls[k], DHCPNAK)
  {
    var c1 := Started(c, r);
    if c1.nextTimeout != NO_TIMEOUT && c1.state == c.state {
      var timeout := CalculateTimeout(c1, r.adjustment);
      var k := WaitChangesByAnswer(c1, timeout, r.polls);
      assert Brings(c1, r.polls[k], DHCPNAK);
    }
  }

  /** Only an acknowledgement that was put into effect makes a client Bound. */
  lemma WhyBound(c: Client, r: Round)
    requires c.state != Bound && AfterRound(c, r).state == Bound
    ensures exists k :: 0 <= k < |r.polls| && Brings(Started(c, r), r.polls[k], DHCPACK)
                        && Configurable(c, r.polls[k].result.received.value, r.polls[k].result.outcome)
  {
    var c1 := Started(c, r);
    var timeout := CalculateTimeout(c1, r.adjustment);
    var k := WaitChangesByAnswer(c1, timeout, r.polls);
    assert Brings(c1, r.polls[k], DHCPACK);
  }
}
