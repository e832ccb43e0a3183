/** The DHCP client's state machine as functions on values: one switch, one received message, one
    wait, and whole runs of the loop. */
module ClientMachine {
  import opened Words
  import opened Dhcp
  import opened Codec
  import opened DhcpMessage
  import opened Timers

  const INITIAL_TIMEOUT: U32 := 4000
  const MAX_TIMEOUT: U32 := 64000
  const NO_TIMEOUT: U32 := 0
  const TIMEOUT_SPAN: int := 1000
  const INADDR_BROADCAST: U32 := 0xFFFF_FFFF

  datatype State = Init | Selecting | Requesting | Bound | Renewing | Rebinding

  /** What the client has set up outside itself, apart from its address: the interface's flag, MTU and
      netmask, the default route, and the properties for the gateway and the DNS servers (zero for a
      cleared one). */
  datatype Device = Device(up: bool, mtu: U16, mask: U32, route: U32, gateway: U32, dns: FourWords)

  /** The client's fields; `address` is what its interface carries, `nextId` the process's
      transaction counter, `lastXid` the id of the last message sent. */
  datatype Client = Client(state: State, nextTimeout: U32, fuzz: bool, lastXid: U32,
                           requestAddress: U32, serverAddress: U32, t1: U64, t2: U64, info: Info,
                           address: U32, device: Device, nextId: U32, mac: Mac, noGateway: bool)

  predicate IsFresh(c: Client) {
    c.state == Init && c.nextTimeout == INITIAL_TIMEOUT && c.fuzz && c.lastXid == 0 && c.address == 0
  }

  // ---------- the switch in run ----------

  function SetNextState(c: Client, s: State): Client {
    c.(state := s, nextTimeout := NO_TIMEOUT, fuzz := true)
  }

  function Increased(timeout: U32): U32 {
    if timeout == NO_TIMEOUT then INITIAL_TIMEOUT
    else if timeout >= MAX_TIMEOUT || timeout * 2 > MAX_TIMEOUT then MAX_TIMEOUT
    else timeout * 2
  }

  function Sending(c: Client): Client {
    c.(lastXid := c.nextId, nextId := (c.nextId + 1) % TWO_32, nextTimeout := Increased(c.nextTimeout))
  }

  function Discovery(c: Client): Built {
    Built(FromClient(c.mac, c.nextId), DiscoverOptions())
  }

  function Petition(c: Client, destination: U32): Built {
    Built(FromClient(c.mac, c.nextId), RequestOptions(c.requestAddress, destination))
  }

  /** One pass of the switch; the two samples are the clock reads of expired and remainingMillis. */
  function Evaluate(c: Client, now1: U64, now2: U64): (Client, Option<Built>) {
    match c.state
    case Init => (SetNextState(c, Selecting), None)
    case Selecting => (Sending(c), Some(Discovery(c)))
    case Requesting =>
      if c.nextTimeout >= MAX_TIMEOUT then (SetNextState(c, Init), None)
      else (Sending(c), Some(Petition(c, c.serverAddress)))
    case Bound =>
      if now1 >= c.t1 then (SetNextState(c, Renewing), None)
      else (c.(nextTimeout := RemainingAt(c.t1, now2) % TWO_32, fuzz := false), None)
    case Renewing =>
      if now1 >= c.t2 then (SetNextState(c, Rebinding), None)
      else (Sending(c), Some(Petition(c, c.serverAddress)))
    case Rebinding =>
      if c.nextTimeout >= MAX_TIMEOUT then (SetNextState(c, Init), None)
      else (Sending(c), Some(Petition(c, INADDR_BROADCAST)))
  }

  predicate AwaitsAnswer(s: State) {
    s == Requesting || s == Renewing || s == Rebinding
  }

  /** What a pass of the switch sends, under which transaction id, and what it leaves alone; a client that
      goes on to wait for an answer has just sent a request. */
  lemma SwitchSends(c: Client, now1: U64, now2: U64)
    ensures var (c', b) := Evaluate(c, now1, now2);
      && c' == c.(state := c'.state, nextTimeout := c'.nextTimeout, fuzz := c'.fuzz, lastXid := c'.lastXid,
                  nextId := c'.nextId)
      && (b.None? ==> c'.lastXid == c.lastXid && c'.nextId == c.nextId)
      && (b.Some? ==>
            var w := OnWire(b.value);
            && w.op == OP_BOOTREQUEST && w.mac == c.mac && w.xid == c'.lastXid == c.nextId
            && w.flags == 0x8000 && w.yiaddr == 0 && w.giaddr == 0
            && w.mtype == (if c.state == Selecting then DHCPDISCOVER else DHCPREQUEST)
            && c'.nextId == (c.nextId + 1) % TWO_32)
      && (AwaitsAnswer(c'.state) && c'.nextTimeout != NO_TIMEOUT ==> b.Some? && c.state != Selecting)
  {
    var h := FromClient(c.mac, c.nextId);
    DiscoverRead(h);
    RequestRead(c.requestAddress, if c.state == Rebinding then INADDR_BROADCAST else c.serverAddress, h);
  }

  lemma SendsFromFactory(c: Client, now1: U64, now2: U64)
    ensures var b := Evaluate(c, now1, now2).1; b.Some? ==> FromFactory(b.value)
  {
  }

  // ---------- one received message ----------

  /** Setting the interface address may fail before or after it took effect. */
  datatype Setting = Done | Failed | DoneUnconfirmed

  /** Outcomes of the calls configureDhcp and haltNetwork make, and its two clock samples. `link` is
      bringing the interface up or down; `written` says which properties, the gateway's and the four
      DNS servers', could be set. */
  datatype Outcome = Outcome(now1: U64, now2: U64, link: bool, mtu: bool, written: Written, setting: Setting,
                             gateway: bool)

  type Written = s: seq<bool> | |s| == 5 witness [true, true, true, true, true]

  function T1Seconds(d: Info): U32 {
    if d.t1 > 0 then d.t1 else DefaultT1(d.leaseTime)
  }

  function T2Seconds(d: Info): U32 {
    if d.t2 > 0 then d.t2 else DefaultT2(d.leaseTime)
  }

  /** The steps of configureDhcp whose failure is not fatal. */
  function Published(v: Device, d: Info, o: Outcome): Device {
    v.(mtu := if d.mtu != 0 && o.mtu then d.mtu else v.mtu,
       gateway := if o.written[0] then d.gateway else v.gateway,
       dns := [if o.written[1] then d.dns[0] else v.dns[0], if o.written[2] then d.dns[1] else v.dns[1],
               if o.written[3] then d.dns[2] else v.dns[2], if o.written[4] then d.dns[3] else v.dns[3]])
  }

  function Configure(c: Client, w: Wire, o: Outcome): (Client, bool) {
    var d := w.info.(offeredAddress := w.yiaddr);
    if !w.infoOk then (c.(info := w.info), false)
    else if d.leaseTime == 0 then (c.(info := d), false)
    else
      var c1 := c.(info := d, t1 := ExpiresAt(o.now1, T1Seconds(d)), t2 := ExpiresAt(o.now2, T2Seconds(d)));
      if !o.link then (c1, false)
      else
        var c2 := Addressed(c1.(device := Published(c1.device.(up := true), d, o)), d.offeredAddress, d.subnetMask, o);
        if o.setting != Done then (c2, false)
        else if c.noGateway then (c2, true)
        else if !o.gateway then (c2, false)
        else (c2.(device := c2.device.(route := d.gateway)), true)
  }

  /** Interface::setAddress. */
  function Addressed(c: Client, address: U32, mask: U32, o: Outcome): Client {
    if o.setting == Failed then c else c.(address := address, device := c.device.(mask := mask))
  }

  /** haltNetwork: the address is cleared, then the interface brought down; failures are ignored. */
  function Halted(c: Client, o: Outcome): Client {
    var c' := Addressed(c, 0, 0, o);
    if o.link then c'.(device := c'.device.(up := false)) else c'
  }

  predicate ForUs(c: Client, w: Wire) {
    w.wellFormed && w.op == OP_BOOTREPLY && w.xid == c.lastXid
  }

  /** The reaction to one message while polling, and whether the wait ends with it. */
  function Hear(c: Client, w: Wire, o: Outcome): (Client, bool) {
    if !ForUs(c, w) then (c, false)
    else match c.state
      case Selecting =>
        if w.mtype == DHCPOFFER then
          (SetNextState(c.(serverAddress := w.serverId, requestAddress := w.yiaddr), Requesting), true)
        else (c, false)
      case Requesting => HearAnswer(c, w, o)
      case Renewing => HearAnswer(c, w, o)
      case Rebinding => HearAnswer(c, w, o)
      case _ => (c, false)
  }

  function HearAnswer(c: Client, w: Wire, o: Outcome): (Client, bool) {
    if w.mtype == DHCPACK then
      var (c', ok) := Configure(c, w, o);
      if ok then (SetNextState(c', Bound), true) else (c', false)
    else if w.mtype == DHCPNAK then
      (SetNextState(Halted(c, o), Init), true)
    else (c, false)
  }

  lemma ConfigureSets(c: Client, w: Wire, o: Outcome)
    ensures var c' := Configure(c, w, o).0;
      && c'.mac == c.mac && c'.lastXid == c.lastXid && c'.nextId == c.nextId && c'.state == c.state
      && c'.address in {c.address, w.yiaddr}
  {
  }

  lemma AnswerSets(c: Client, w: Wire, o: Outcome)
    ensures var c' := HearAnswer(c, w, o).0;
      && c'.mac == c.mac && c'.lastXid == c.lastXid && c'.nextId == c.nextId
      && (!HearAnswer(c, w, o).1 ==> c'.state == c.state)
      && (c'.address in {0, c.address} || (w.mtype == DHCPACK && c'.address == w.yiaddr))
  {
    if w.mtype == DHCPACK {
      ConfigureSets(c, w, o);
    }
  }

  /** The address a message can leave the client with: its own, none, or that of an accepted ack. */
  lemma HearingSets(c: Client, w: Wire, o: Outcome)
    ensures var c' := Hear(c, w, o).0;
      && c'.mac == c.mac && c'.lastXid == c.lastXid && c'.nextId == c.nextId
      && (!Hear(c, w, o).1 ==> c'.state == c.state)
      && (c'.address in {0, c.address}
          || (AwaitsAnswer(c.state) && ForUs(c, w) && w.mtype == DHCPACK && c'.address == w.yiaddr))
  {
    if ForUs(c, w) && AwaitsAnswer(c.state) {
      AnswerSets(c, w, o);
    }
  }

  // ---------- the wait ----------

  /** One ppoll: when it started, how it ended, and the clock when it had been dealt with. */
  datatype Poll = Poll(startedAt: U64, result: PollResult, currentTime: U64)

  datatype PollResult = TimedOut | Error | Readable(received: Option<Wire>, outcome: Outcome)

  /** A wait over the polls so far has returned at some time, or is still polling. */
  datatype WaitEnd = Returned(c: Client, at: U64) | StillWaiting(c: Client, timeout: U32)

  /** What the client is after one poll, and whether the poll itself ended the wait. */
  function AfterPoll(c: Client, p: Poll): (Client, bool) {
    match p.result
    case TimedOut => (c, true)
    case Error => (c, false)
    case Readable(received, o) => if received.None? then (c, false) else Hear(c, received.value, o)
  }

  function EndOf(p: Poll, timeout: U32): U64 {
    (p.startedAt + timeout) % TWO_64
  }

  /** The 64-bit difference is cut to the 32-bit timeout. */
  function Remaining(p: Poll, timeout: U32): U32 {
    (EndOf(p, timeout) - p.currentTime) % TWO_32
  }

  function Wait(c: Client, timeout: U32, polls: seq<Poll>): WaitEnd
    decreases |polls|
  {
    if polls == [] then StillWaiting(c, timeout)
    else
      var p := polls[0];
      var (c', over) := AfterPoll(c, p);
      if over || p.currentTime >= EndOf(p, timeout) then Returned(c', p.currentTime)
      else Wait(c', Remaining(p, timeout), polls[1..])
  }

  lemma WaitStep(c: Client, timeout: U32, p: Poll, rest: seq<Poll>)
    ensures var (c', over) := AfterPoll(c, p);
      Wait(c, timeout, [p] + rest) ==
      if over || p.currentTime >= EndOf(p, timeout) then Returned(c', p.currentTime)
      else Wait(c', Remaining(p, timeout), rest)
  {
    assert ([p] + rest)[1..] == rest;
  }

  type Adjustment = a: int | -TIMEOUT_SPAN <= a <= TIMEOUT_SPAN

  function CalculateTimeout(c: Client, adjustment: Adjustment): U32 {
    if !c.fuzz then c.nextTimeout
    else if adjustment < 0 && -adjustment > c.nextTimeout then 0
    else (c.nextTimeout + adjustment) % TWO_32
  }

  function WaitAndReceive(c: Client, adjustment: Adjustment, polls: seq<Poll>): WaitEnd {
    if c.nextTimeout == NO_TIMEOUT then Returned(c, 0)
    else Wait(c, CalculateTimeout(c, adjustment), polls)
  }

  // ---------- rounds of the loop ----------

  datatype Round = Round(now1: U64, now2: U64, adjustment: Adjustment, polls: seq<Poll>)

  function OneRound(c: Client, r: Round): WaitEnd {
    WaitAndReceive(Evaluate(c, r.now1, r.now2).0, r.adjustment, r.polls)
  }

  function AfterRound(c: Client, r: Round): Client {
    OneRound(c, r).c
  }

  function AfterRounds(c: Client, rs: seq<Round>): Client
    decreases |rs|
  {
    if rs == [] then c else AfterRounds(AfterRound(c, rs[0]), rs[1..])
  }

  // ---------- what a poll leaves alone ----------

  /** A message either moves the client to another state with no timeout, or leaves all but the
      lease information alone. */
  predicate Moved(c: Client, c': Client) {
    c'.state != c.state && c'.nextTimeout == NO_TIMEOUT && c'.fuzz
  }

  predicate Kept(c: Client, c': Client) {
    c'.(info := c.info, t1 := c.t1, t2 := c.t2, address := c.address, device := c.device) == c
  }

  lemma HearMovesOrKeeps(c: Client, w: Wire, o: Outcome)
    ensures var (c', over) := Hear(c, w, o); if over then Moved(c, c') else Kept(c, c')
  {
  }

  lemma PollMovesOrKeeps(c: Client, p: Poll)
    ensures var (c', over) := AfterPoll(c, p);
      if over && !p.result.TimedOut? then Moved(c, c') else Kept(c, c')
    ensures c.state in {Init, Bound} ==> AfterPoll(c, p).0 == c
    ensures AfterPoll(c, p).0.lastXid == c.lastXid
  {
    if p.result.Readable? && p.result.received.Some? {
      HearMovesOrKeeps(c, p.result.received.value, p.result.outcome);
    }
  }

  lemma {:induction false} WaitMovesOrKeeps(c: Client, timeout: U32, polls: seq<Poll>)
    ensures var c' := Wait(c, timeout, polls).c; Moved(c, c') || Kept(c, c')
    ensures Wait(c, timeout, polls).StillWaiting? ==> Kept(c, Wait(c, timeout, polls).c)
    ensures c.state in {Init, Bound} ==> Wait(c, timeout, polls).c == c
    decreases |polls|
  {
    if polls != [] {
      PollMovesOrKeeps(c, polls[0]);
      WaitMovesOrKeeps(AfterPoll(c, polls[0]).0, Remaining(polls[0], timeout), polls[1..]);
    }
  }

  // ---------- the retransmission timeouts ----------

  /** The base timeout after k transmissions. */
  function Backoff(k: nat): U32 {
    if k == 0 then 0 else if k >= 5 then 64000 else [4000, 8000, 16000, 32000][k - 1]
  }

  predicate BackoffValue(t: U32) {
    t in {0, 4000, 8000, 16000, 32000, 64000}
  }

  /** Outside Bound the timeout is fuzzed and one of six values; a client that has just become
      Bound has none yet. */
  predicate TimeoutsInOrder(c: Client) {
    if c.state == Bound then c.fuzz ==> c.nextTimeout == NO_TIMEOUT
    else c.fuzz && BackoffValue(c.nextTimeout)
  }

  lemma RoundKeepsTimeouts(c: Client, r: Round)
    requires TimeoutsInOrder(c)
    ensures TimeoutsInOrder(Evaluate(c, r.now1, r.now2).0)
    ensures TimeoutsInOrder(AfterRound(c, r))
  {
    var c1 := Evaluate(c, r.now1, r.now2).0;
    if c1.nextTimeout != NO_TIMEOUT {
      WaitMovesOrKeeps(c1, CalculateTimeout(c1, r.adjustment), r.polls);
    }
  }

  lemma {:induction false} TimeoutsAlwaysInOrder(c: Client, rs: seq<Round>)
    requires TimeoutsInOrder(c)
    ensures TimeoutsInOrder(AfterRounds(c, rs))
    decreases |rs|
  {
    if rs != [] {
      RoundKeepsTimeouts(c, rs[0]);
      TimeoutsAlwaysInOrder(AfterRound(c, rs[0]), rs[1..]);
    }
  }

  lemma FuzzExact(c: Client, adjustment: Adjustment)
    requires TimeoutsInOrder(c)
    ensures c.state != Bound && c.nextTimeout != NO_TIMEOUT ==>
              CalculateTimeout(c, adjustment) == c.nextTimeout + adjustment >= 3000
  {
  }

  /** In every state reachable from a fresh client the calculated wait is exact: the fuzz neither
      underflows nor wraps, and stays within one second of the base. */
  lemma ReachableWaits(c: Client, rs: seq<Round>, r: Round)
    requires IsFresh(c)
    ensures var c' := Evaluate(AfterRounds(c, rs), r.now1, r.now2).0;
      && TimeoutsInOrder(c')
      && (c'.state != Bound && c'.nextTimeout != NO_TIMEOUT ==>
            CalculateTimeout(c', r.adjustment) == c'.nextTimeout + r.adjustment >= 3000)
  {
    TimeoutsAlwaysInOrder(c, rs);
    RoundKeepsTimeouts(AfterRounds(c, rs), r);
    FuzzExact(Evaluate(AfterRounds(c, rs), r.now1, r.now2).0, r.adjustment);
  }

  /** Bound is left only when T1 has expired; until then nothing received changes the client, and
      the wait is unfuzzed and not longer than what T1 had left when sampled. */
  lemma BoundUntilT1(c: Client, r: Round)
    requires c.state == Bound
    ensures AfterRound(c, r).state != Bound <==> r.now1 >= c.t1
    ensures r.now1 >= c.t1 ==> AfterRound(c, r) == SetNextState(c, Renewing)
    ensures r.now1 < c.t1 ==>
      var c' := Evaluate(c, r.now1, r.now2).0;
      && AfterRound(c, r) == c' && c' == c.(nextTimeout := c'.nextTimeout, fuzz := false)
      && CalculateTimeout(c', r.adjustment) == c'.nextTimeout <= RemainingAt(c.t1, r.now2)
  {
    var c1 := Evaluate(c, r.now1, r.now2).0;
    if c1.nextTimeout != NO_TIMEOUT {
      WaitMovesOrKeeps(c1, CalculateTimeout(c1, r.adjustment), r.polls);
    }
  }

  // ---------- asking for an address ----------

  predicate Asking(c: Client) {
    c.state == Requesting || c.state == Rebinding
  }

  /** The server a request names: the one whose offer was taken, or any. */
  function Destination(c: Client): U32 {
    if c.state == Rebinding then INADDR_BROADCAST else c.serverAddress
  }

  predicate Asks(w: Wire, address: U32, server: U32) {
    w.wellFormed && w.op == OP_BOOTREQUEST && w.mtype == DHCPREQUEST && w.requestedIp == address && w.serverId == server
  }

  lemma AsksForAddress(c: Client, r: Round)
    requires (Asking(c) && c.nextTimeout < MAX_TIMEOUT) || (c.state == Renewing && r.now1 < c.t2)
    ensures var b := Evaluate(c, r.now1, r.now2).1;
      b.Some? && Asks(OnWire(b.value), c.requestAddress, Destination(c))
  {
    RequestRead(c.requestAddress, Destination(c), FromClient(c.mac, c.nextId));
  }

  // ---------- the lease this repository's server gives ----------

  /** A client configured from an ack of this repository's server. */
  predicate ConfiguredFrom(c: Client, server: Endian, now1: U64, now2: U64) {
    && c.t1 == ExpiresAt(now1, DefaultT1(LeaseTimeRead(server)))
    && c.t2 == ExpiresAt(now2, DefaultT2(LeaseTimeRead(server)))
  }

  lemma PublishedSets(v: Device, d: Info, o: Outcome)
    ensures var v' := Published(v, d, o);
      && v'.mtu == (if d.mtu != 0 && o.mtu then d.mtu else v.mtu)
      && v'.gateway == (if o.written[0] then d.gateway else v.gateway)
      && (forall k :: 0 <= k < 4 ==> v'.dns[k] == if o.written[k + 1] then d.dns[k] else v.dns[k])
      && v'.(mtu := v.mtu, gateway := v.gateway, dns := v.dns) == v
  {
  }

  /** A configuration in which nothing fatal fails: Bound, and everything as the message has it. */
  lemma ConfigureAll(c: Client, w: Wire, o: Outcome)
    requires (Asking(c) || c.state == Renewing) && ForUs(c, w) && w.mtype == DHCPACK
    requires w.infoOk && w.info.leaseTime != 0
    requires o.link && o.setting == Done && (c.noGateway || o.gateway)
    ensures var (c', over) := Hear(c, w, o);
      && over && c'.state == Bound && c'.address == w.yiaddr
      && c'.info == w.info.(offeredAddress := w.yiaddr)
      && c'.device.up && c'.device.mask == w.info.subnetMask
      && c'.device.mtu == (if w.info.mtu != 0 && o.mtu then w.info.mtu else c.device.mtu)
      && (!c.noGateway ==> c'.device.route == w.info.gateway)
      && (o.written[0] ==> c'.device.gateway == w.info.gateway)
      && (forall k :: 0 <= k < 4 && o.written[k + 1] ==> c'.device.dns[k] == w.info.dns[k])
      && c'.t1 == ExpiresAt(o.now1, T1Seconds(w.info)) && c'.t2 == ExpiresAt(o.now2, T2Seconds(w.info))
  {
    PublishedSets(c.device.(up := true), w.info.(offeredAddress := w.yiaddr), o);
  }

  lemma AckConfigures(c: Client, server: Endian, h: Header, s: U32, netmask: U32, gateway: U32, dns: seq<U32>,
                      o: Outcome)
    requires Asking(c) || c.state == Renewing
    requires h.op == OP_BOOTREPLY && h.xid == c.lastXid
    requires o.link && o.setting == Done && (c.noGateway || o.gateway)
    ensures var w := WireOf(h, GrantOptions(DHCPACK, server, s, netmask, gateway, dns));
      var (c', over) := Hear(c, w, o);
      && over && c'.state == Bound && c'.address == h.yiaddr && c'.info.subnetMask == netmask
      && c'.info.gateway == gateway && c'.info.serverId == s
      && c'.info.dns == [DnsSlot(dns, 0), DnsSlot(dns, 1), DnsSlot(dns, 2), DnsSlot(dns, 3)]
      && c'.device.up && c'.device.mask == netmask && c'.device.mtu == c.device.mtu
      && (!c.noGateway ==> c'.device.route == gateway)
      && (o.written[0] ==> c'.device.gateway == gateway)
      && (forall k :: 0 <= k < 4 && o.written[k + 1] ==> c'.device.dns[k] == DnsSlot(dns, k))
      && ConfiguredFrom(c', server, o.now1, o.now2)
  {
    GrantRead(DHCPACK, server, s, netmask, gateway, dns, h);
    LeaseTimeSurvivesIffBigEndian(server);
    ConfigureAll(c, WireOf(h, GrantOptions(DHCPACK, server, s, netmask, gateway, dns)), o);
  }

  /** The lease of this repository's server leaves its client a time to renew in, T1 not after T2,
      exactly when the server is big-endian. */
  lemma RenewalWindowIffBigEndian(c: Client, server: Endian, now1: U64, now2: U64)
    requires ConfiguredFrom(c, server, now1, now2)
    requires now1 <= now2 < now1 + 76_695_844_000 && now2 < CLOCK_LIMIT
    ensures c.t1 <= c.t2 <==> server == Big
  {
    LeaseTimeSurvivesIffBigEndian(server);
    DeadlinesOrderedIff(LeaseTimeRead(server), now1, now2);
  }
}
