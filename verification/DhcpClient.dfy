/** The DHCP client object: the loop body of run, on real messages and raw frames. */
module DhcpClient {
  import opened Words
  import opened Dhcp
  import opened Codec
  import opened DhcpMessage
  import opened Timers
  import opened IpReader
  import M = ClientMachine
  import Socket

  type Rest = s: seq<Byte> | |s| == MEMORY - CAPACITY witness [0, 0, 0, 0]

  /** One ppoll as the socket sees it: a raw frame, or None when reading failed. */
  datatype RawPoll = RawPoll(startedAt: U64, result: RawResult, currentTime: U64)

  datatype RawResult = RawTimedOut | RawError | RawReadable(frame: Option<seq<Byte>>, rest: Rest, outcome: M.Outcome)

  /** A zeroed message after `p` has been read into it. */
  function Buffer(p: Socket.Payload, rest: Rest): (m: seq<Byte>)
    ensures |m| == MEMORY
  {
    p + Zeros(CAPACITY - |p|) + rest
  }

  function Seen(frame: Option<seq<Byte>>, rest: Rest): Option<Wire> {
    if frame.None? then None
    else
      match Socket.ReceiveRawUdp(frame.value, PORT_BOOTP_CLIENT)
      case None => None
      case Some(p) => Some(Decode(Buffer(p, rest), |p|))
  }

  /** A finished message for the client's port, sent raw by anyone and padded by the link in any way, is
      seen as what it was built from. */
  lemma MessageIsSeen(e: Endian, source: U32, sourcePort: U16, destination: U32, m: seq<Byte>, size: nat, b: Built,
                      padding: seq<Byte>, rest: Rest)
    requires Complete(m, size, b.header, b.options) && NoEnd(b.options)
    ensures Seen(Some(Frame(e, source, sourcePort, destination, PORT_BOOTP_CLIENT, m[..size]) + padding), rest) ==
            Some(OnWire(b))
  {
    var payload := m[..size];
    var frame := Frame(e, source, sourcePort, destination, PORT_BOOTP_CLIENT, payload) + padding;
    ReceivePadded(e, source, sourcePort, destination, PORT_BOOTP_CLIENT, payload, padding);
    var p := Socket.ReceiveRawUdp(frame, PORT_BOOTP_CLIENT).value;
    assert Buffer(p, rest)[..size] == payload;
    Delivered(m, Buffer(p, rest), size, |p|, b);
  }

  function SeenPoll(r: RawPoll): M.Poll {
    M.Poll(r.startedAt,
           match r.result
           case RawTimedOut => M.TimedOut
           case RawError => M.Error
           case RawReadable(frame, rest, outcome) => M.Readable(Seen(frame, rest), outcome),
           r.currentTime)
  }

  function SeenPolls(rs: seq<RawPoll>): seq<M.Poll> {
    seq(|rs|, k requires 0 <= k < |rs| => SeenPoll(rs[k]))
  }

  lemma SeenSplit(rs: seq<RawPoll>, k: nat)
    requires k < |rs|
    ensures SeenPolls(rs[k..]) == [SeenPoll(rs[k])] + SeenPolls(rs[k + 1..])
  {
  }

  /** Every receiver of IPv4 and UDP reads the frame as this payload, broadcast from the client's port to
      the server's, whatever padding the link adds. */
  ghost predicate Delivers(frame: seq<Byte>, payload: seq<Byte>) {
    forall padding: seq<Byte> ::
      Read(frame + padding) == Some(Datagram(0, PORT_BOOTP_CLIENT, M.INADDR_BROADCAST, PORT_BOOTP_SERVER, payload))
  }

  ghost predicate Verified(frame: seq<Byte>) {
    forall padding: seq<Byte> :: Read(frame + padding).Some? && UdpVerified(frame + padding)
  }

  /** When the UDP check of a frame with this payload is accepted. */
  predicate CheckFits(e: Endian, frame: seq<Byte>, payload: seq<Byte>)
    requires |frame| >= 28
  {
    e == Little || |payload| % 2 == 0 || payload[|payload| - 1] == 0 || frame[26..28] == [0, 0]
  }

  lemma FrameFacts(e: Endian, frame: seq<Byte>, payload: Socket.Payload)
    requires frame == Frame(e, 0, PORT_BOOTP_CLIENT, M.INADDR_BROADCAST, PORT_BOOTP_SERVER, payload)
    ensures Delivers(frame, payload) && Socket.ReceiveRawUdp(frame, PORT_BOOTP_CLIENT) == None
    ensures Verified(frame) <==> CheckFits(e, frame, payload)
  {
    forall padding: seq<Byte>
      ensures Read(frame + padding) ==
              Some(Datagram(0, PORT_BOOTP_CLIENT, M.INADDR_BROADCAST, PORT_BOOTP_SERVER, payload))
      ensures UdpVerified(frame + padding) <==> CheckFits(e, frame, payload)
    {
      FrameIsRead(e, 0, PORT_BOOTP_CLIENT, M.INADDR_BROADCAST, PORT_BOOTP_SERVER, payload, padding);
      FrameVerifiedIff(e, 0, PORT_BOOTP_CLIENT, M.INADDR_BROADCAST, PORT_BOOTP_SERVER, payload, padding);
      assert (frame + padding)[26..28] == frame[26..28];
    }
    if Verified(frame) {
      assert UdpVerified(frame + []);
    }
    Socket.RawRoundTrip(e, 0, PORT_BOOTP_CLIENT, M.INADDR_BROADCAST, PORT_BOOTP_SERVER, payload, PORT_BOOTP_CLIENT);
  }

  /** A frame that every receiver accepts, and reads as this finished message for the server. */
  ghost predicate FrameOf(frame: seq<Byte>, b: Built) {
    Verified(frame) &&
    exists m: seq<Byte>, size: nat :: Complete(m, size, b.header, b.options) && Delivers(frame, m[..size])
  }

  lemma FactoryFrame(e: Endian, frame: seq<Byte>, m: seq<Byte>, size: nat, b: Built)
    requires Complete(m, size, b.header, b.options) && FromFactory(b)
    requires Delivers(frame, m[..size]) && |frame| >= 28
    requires Verified(frame) <==> CheckFits(e, frame, m[..size])
    ensures FrameOf(frame, b)
  {
    ClientSizes(m, size, b);
    EvenFits(e, frame, m[..size]);
    FrameWitness(frame, m, size, b);
  }

  lemma EvenFits(e: Endian, frame: seq<Byte>, payload: seq<Byte>)
    requires |payload| in {254, 266} && |frame| >= 28
    ensures CheckFits(e, frame, payload)
  {
  }

  lemma FrameWitness(frame: seq<Byte>, m: seq<Byte>, size: nat, b: Built)
    requires Complete(m, size, b.header, b.options) && Delivers(frame, m[..size]) && Verified(frame)
    ensures FrameOf(frame, b)
  {
  }

  class DhcpClient {
    const mac: Mac
    const noGateway: bool
    const mT1: Timer
    const mT2: Timer
    var mState: M.State
    var mNextTimeout: U32
    var mFuzzNextTimeout: bool
    var mDhcpInfo: Info
    var mLastXid: U32
    var mRequestAddress: U32
    var mServerAddress: U32
    var address: U32
    var device: M.Device
    var nextId: U32

    ghost predicate Valid() {
      mT1 != mT2
    }

    function View(): M.Client
      reads this, mT1, mT2
    {
      M.Client(mState, mNextTimeout, mFuzzNextTimeout, mLastXid, mRequestAddress, mServerAddress,
               mT1.mExpires, mT2.mExpires, mDhcpInfo, address, device, nextId, mac, noGateway)
    }

    /** A client whose interface has been initialised, which clears its address. */
    constructor (mac: Mac, noGateway: bool, firstId: U32, device: M.Device)
      ensures Valid() && fresh(mT1) && fresh(mT2)
      ensures M.IsFresh(View()) && nextId == firstId && this.device == device
    {
      this.mac, this.noGateway := mac, noGateway;
      mT1 := new Timer();
      mT2 := new Timer();
      mState, mNextTimeout, mFuzzNextTimeout := M.Init, M.INITIAL_TIMEOUT, true;
      mDhcpInfo, mLastXid, mRequestAddress, mServerAddress, address, nextId := ZERO_INFO, 0, 0, 0, 0, firstId;
      this.device := device;
    }

    method SetNextState(state: M.State)
      modifies this
      ensures View() == M.SetNextState(old(View()), state)
    {
      mState := state;
      mNextTimeout := M.NO_TIMEOUT;
      mFuzzNextTimeout := true;
    }

    method IncreaseTimeout()
      modifies this`mNextTimeout
      ensures mNextTimeout == M.Increased(old(mNextTimeout))
    {
      if mNextTimeout == M.NO_TIMEOUT {
        mNextTimeout := M.INITIAL_TIMEOUT;
      } else {
        if mNextTimeout < M.MAX_TIMEOUT {
          mNextTimeout := mNextTimeout * 2;
        }
        if mNextTimeout > M.MAX_TIMEOUT {
          mNextTimeout := M.MAX_TIMEOUT;
        }
      }
    }

    /** `adjustment` is what the random distribution delivers. */
    method CalculateTimeoutMillis(adjustment: M.Adjustment) returns (timeout: U32)
      ensures timeout == M.CalculateTimeout(View(), adjustment)
    {
      if !mFuzzNextTimeout {
        return mNextTimeout;
      }
      if adjustment < 0 && -adjustment > mNextTimeout {
        return 0;
      }
      return (mNextTimeout + adjustment) % TWO_32;
    }

    method SendDhcpRequest(destination: U32, rest: Rest) returns (m: Message)
      modifies this`mLastXid, this`nextId
      ensures View() == old(View()).(lastXid := old(nextId), nextId := (old(nextId) + 1) % TWO_32)
      ensures fresh(m) && fresh(m.mem) && m.Valid()
      ensures var b := M.Petition(old(View()), destination); Complete(m.mem[..], m.mSize, b.header, b.options)
    {
      m := Message.Request(mac, nextId, mRequestAddress, destination, rest);
      mLastXid := nextId;
      nextId := (nextId + 1) % TWO_32;
    }

    method SendDhcpDiscover(rest: Rest) returns (m: Message)
      modifies this`mLastXid, this`nextId
      ensures View() == old(View()).(lastXid := old(nextId), nextId := (old(nextId) + 1) % TWO_32)
      ensures fresh(m) && fresh(m.mem) && m.Valid()
      ensures var b := M.Discovery(old(View())); Complete(m.mem[..], m.mSize, b.header, b.options)
    {
      m := Message.Discover(mac, nextId, rest);
      mLastXid := nextId;
      nextId := (nextId + 1) % TWO_32;
    }

    /** A request and the longer timeout that follows it. */
    method Petition(destination: U32, rest: Rest) returns (sent: Option<Message>)
      modifies this
      ensures View() == M.Sending(old(View())) && Carries(sent, Some(M.Petition(old(View()), destination)))
    {
      var m := SendDhcpRequest(destination, rest);
      IncreaseTimeout();
      sent := Some(m);
    }

    /** The switch at the top of the loop in run. */
    method Evaluate(now1: U64, now2: U64, rest: Rest) returns (sent: Option<Message>)
      requires Valid()
      modifies this
      ensures View() == M.Evaluate(old(View()), now1, now2).0
      ensures Carries(sent, M.Evaluate(old(View()), now1, now2).1)
    {
      sent := None;
      match mState {
        case Init =>
          SetNextState(M.Selecting);
        case Selecting =>
          var m := SendDhcpDiscover(rest);
          IncreaseTimeout();
          sent := Some(m);
        case Requesting =>
          if mNextTimeout >= M.MAX_TIMEOUT {
            SetNextState(M.Init);
          } else {
            sent := Petition(mServerAddress, rest);
          }
        case Bound =>
          if mT1.Expired(now1) {
            SetNextState(M.Renewing);
          } else {
            var remaining := mT1.RemainingMillis(now2);
            mNextTimeout := remaining % TWO_32;
            mFuzzNextTimeout := false;
          }
        case Renewing =>
          if mT2.Expired(now1) {
            SetNextState(M.Rebinding);
          } else {
            sent := Petition(mServerAddress, rest);
          }
        case Rebinding =>
          if mNextTimeout >= M.MAX_TIMEOUT {
            SetNextState(M.Init);
          } else {
            sent := Petition(M.INADDR_BROADCAST, rest);
          }
      }
    }

    /** sendMessage: what goes out is a frame that every receiver reads as this message for the server's
        port, and that no client takes. Its UDP check is accepted if the payload is even or padded with a
        zero, the host little-endian, or the check zero; and so for every message the client builds. */
    method SendMessage(e: Endian, message: Message, ghost b: Built) returns (frame: seq<Byte>)
      requires message.Valid()
      ensures |frame| == 28 + message.mSize && Delivers(frame, message.mem[..message.mSize])
      ensures Socket.ReceiveRawUdp(frame, PORT_BOOTP_CLIENT) == None
      ensures Verified(frame) <==> CheckFits(e, frame, message.mem[..message.mSize])
      ensures Complete(message.mem[..], message.mSize, b.header, b.options) && FromFactory(b) ==>
                FrameOf(frame, b)
    {
      var payload := message.mem[..message.mSize];
      frame := Socket.SendRawUdp(e, 0, PORT_BOOTP_CLIENT, M.INADDR_BROADCAST, PORT_BOOTP_SERVER, payload);
      FrameFacts(e, frame, payload);
      if Complete(message.mem[..], message.mSize, b.header, b.options) && FromFactory(b) {
        assert message.mem[..][..message.mSize] == payload;
        FactoryFrame(e, frame, message.mem[..], message.mSize, b);
      }
    }

    /** The option loop of configureDhcp. */
    method ParseOptions(msg: Message) returns (ok: bool)
      requires msg.Valid() && OptionsSize(msg.mSize) >= 4
      modifies this`mDhcpInfo
      ensures (mDhcpInfo, ok) == ScanOptions(msg.mem[OPTIONS..], OptionsSize(msg.mSize), 4, ZERO_INFO)
    {
      var optsSize := OptionsSize(msg.mSize);
      ghost var o := msg.mem[OPTIONS..];
      mDhcpInfo := ZERO_INFO;
      var i: nat := 4;
      while i + 1 < optsSize
        invariant i >= 4
        invariant ScanOptions(o, optsSize, i, mDhcpInfo) == ScanOptions(o, optsSize, 4, ZERO_INFO)
        decreases optsSize - i
      {
        var optCode, optLength: nat := msg.mem[OPTIONS + i], msg.mem[OPTIONS + i + 1];
        assert o[i] == optCode && o[i + 1] == optLength;
        if optCode == OPT_END {
          break;
        }
        if i + optLength >= optsSize {
          return false;
        }
        var opt := msg.mem[OPTIONS + i + 2..OPTIONS + i + 2 + optLength];
        assert opt == o[i + 2..i + 2 + optLength];
        mDhcpInfo := ApplyOption(mDhcpInfo, optCode, opt);
        i := i + 2 + optLength;
      }
      return true;
    }

    method ConfigureDhcp(msg: Message, o: M.Outcome) returns (ok: bool)
      requires Valid() && msg.Valid() && Decode(msg.mem[..], msg.mSize).wellFormed
      modifies this, mT1, mT2
      ensures (View(), ok) == M.Configure(old(View()), Decode(msg.mem[..], msg.mSize), o)
    {
      ghost var w := Decode(msg.mem[..], msg.mSize);
      assert msg.mem[..][OPTIONS..] == msg.mem[OPTIONS..];
      assert msg.mem[..][16..20] == msg.mem[16..20];
      var parsed := ParseOptions(msg);
      if !parsed {
        return false;
      }
      mDhcpInfo := mDhcpInfo.(offeredAddress := msg.ReadWord(16));
      if mDhcpInfo.leaseTime == 0 {
        return false;
      }
      SetTimers(o);
      ok := ConfigureInterface(o);
    }

    /** T1 and T2 as given, or estimated from the lease time. */
    method SetTimers(o: M.Outcome)
      requires Valid()
      modifies mT1, mT2
      ensures mT1.mExpires == ExpiresAt(o.now1, M.T1Seconds(mDhcpInfo))
      ensures mT2.mExpires == ExpiresAt(o.now2, M.T2Seconds(mDhcpInfo))
    {
      var t1, t2, lease := mDhcpInfo.t1, mDhcpInfo.t2, mDhcpInfo.leaseTime;
      mT1.ExpireSeconds(if t1 > 0 then t1 else lease / 2, o.now1);
      mT2.ExpireSeconds(if t2 > 0 then t2 else lease * 7 % TWO_32 / 8, o.now2);
    }

    /** The second half of configureDhcp: the interface, the properties, the address, the gateway. */
    method ConfigureInterface(o: M.Outcome) returns (ok: bool)
      modifies this`address, this`device
      ensures address == if o.link && o.setting != M.Failed then mDhcpInfo.offeredAddress else old(address)
      ensures device == if !o.link then old(device)
                        else M.Published(old(device).(up := true), mDhcpInfo, o)
                             .(mask := if o.setting == M.Failed then old(device.mask) else mDhcpInfo.subnetMask,
                               route := if ok && !noGateway then mDhcpInfo.gateway else old(device.route))
      ensures ok == (o.link && o.setting == M.Done && (noGateway || o.gateway))
    {
      if !o.link {
        return false;
      }
      device := device.(up := true);
      if mDhcpInfo.mtu != 0 && o.mtu {
        device := device.(mtu := mDhcpInfo.mtu);
      }
      WriteProperties(o);
      if !o.setting.Failed? {
        address := mDhcpInfo.offeredAddress;
        device := device.(mask := mDhcpInfo.subnetMask);
      }
      if !o.setting.Done? {
        return false;
      }
      if !noGateway {
        if !o.gateway {
          return false;
        }
        device := device.(route := mDhcpInfo.gateway);
      }
      return true;
    }

    /** The gateway's property, and one for each DNS entry; a zero entry clears its property. */
    method WriteProperties(o: M.Outcome)
      modifies this`device
      ensures device == M.Published(old(device), mDhcpInfo.(mtu := 0), o)
    {
      if o.written[0] {
        device := device.(gateway := mDhcpInfo.gateway);
      }
      ghost var before := device.dns;
      var i := 0;
      while i < 4
        invariant 0 <= i <= 4
        invariant device == old(device).(gateway := device.gateway, dns := device.dns)
        invariant device.gateway == if o.written[0] then mDhcpInfo.gateway else old(device.gateway)
        invariant forall k :: 0 <= k < i ==> device.dns[k] == if o.written[k + 1] then mDhcpInfo.dns[k] else before[k]
        invariant forall k :: i <= k < 4 ==> device.dns[k] == before[k]
      {
        if o.written[i + 1] {
          device := device.(dns := device.dns[i := mDhcpInfo.dns[i]]);
        }
        i := i + 1;
      }
      assert device.dns == [device.dns[0], device.dns[1], device.dns[2], device.dns[3]];
    }

    method HaltNetwork(o: M.Outcome)
      modifies this`address, this`device
      ensures View() == M.Halted(old(View()), o)
    {
      if !o.setting.Failed? {
        address := 0;
        device := device.(mask := 0);
      }
      if o.link {
        device := device.(up := false);
      }
    }

    /** receiveDhcpMessage, with the check of the transaction id. */
    method ReceiveDhcpMessage(frame: Option<seq<Byte>>, rest: Rest) returns (r: Option<Message>)
      ensures match r
        case None => Seen(frame, rest).None? || !M.ForUs(View(), Seen(frame, rest).value)
        case Some(m) => fresh(m) && fresh(m.mem) && m.Valid()
                        && Seen(frame, rest) == Some(Decode(m.mem[..], m.mSize))
                        && M.ForUs(View(), Seen(frame, rest).value)
    {
      if frame.None? {
        return None;
      }
      var payload := Socket.ReceiveRawUdp(frame.value, PORT_BOOTP_CLIENT);
      if payload.None? {
        return None;
      }
      var m := new Message(rest);
      assert (Zeros(CAPACITY) + rest)[|payload.value|..] == Zeros(CAPACITY - |payload.value|) + rest;
      m.Put(0, payload.value);
      m.mSize := |payload.value|;
      assert m.mem[..] == Buffer(payload.value, rest);
      assert m.mem[..][4..8] == m.mem[4..8];
      var valid := m.IsValidDhcpMessage(OP_BOOTREPLY);
      if valid && m.ReadWord(4) == mLastXid {
        return Some(m);
      }
      return None;
    }

    /** The reaction to one received message; true when the wait ends with it. */
    /** What Requesting, Renewing and Rebinding make of a message. */
    method ReactToAnswer(msg: Message, o: M.Outcome, msgType: Byte) returns (over: bool)
      requires Valid() && msg.Valid()
      requires var w := Decode(msg.mem[..], msg.mSize); w.wellFormed && msgType == w.mtype
      modifies this, mT1, mT2
      ensures (View(), over) == M.HearAnswer(old(View()), Decode(msg.mem[..], msg.mSize), o)
    {
      if msgType == DHCPACK {
        var ok := ConfigureDhcp(msg, o);
        if ok {
          SetNextState(M.Bound);
          return true;
        }
      } else if msgType == DHCPNAK {
        HaltNetwork(o);
        SetNextState(M.Init);
        return true;
      }
      return false;
    }

    method React(msg: Message, o: M.Outcome) returns (over: bool)
      requires Valid() && msg.Valid() && M.ForUs(View(), Decode(msg.mem[..], msg.mSize))
      modifies this, mT1, mT2
      ensures (View(), over) == M.Hear(old(View()), Decode(msg.mem[..], msg.mSize), o)
    {
      var msgType := msg.Type();
      assert msg.mem[..][16..20] == msg.mem[16..20];
      match mState {
        case Selecting =>
          if msgType == DHCPOFFER {
            mServerAddress := msg.ServerId();
            mRequestAddress := msg.ReadWord(16);
            SetNextState(M.Requesting);
            return true;
          }
        case Init =>
        case Bound =>
        case _ =>
          over := ReactToAnswer(msg, o, msgType);
          return;
      }
      return false;
    }

    /** What one ppoll brings; true when the wait ends with it. */
    method Take(p: RawPoll) returns (over: bool)
      requires Valid()
      modifies this, mT1, mT2
      ensures (View(), over) == M.AfterPoll(old(View()), SeenPoll(p))
    {
      match p.result {
        case RawTimedOut =>
          return true;
        case RawError =>
          return false;
        case RawReadable(frame, rest, outcome) =>
          var msg := ReceiveDhcpMessage(frame, rest);
          if msg.None? {
            return false;
          }
          over := React(msg.value, outcome);
      }
    }

    /** The body of the poll loop: one ppoll, then either the end of the wait or the time left. */
    method PollOnce(p: RawPoll, timeout: U32) returns (over: bool, left: U32)
      requires Valid()
      modifies this, mT1, mT2
      ensures View() == M.AfterPoll(old(View()), SeenPoll(p)).0
      ensures over == (M.AfterPoll(old(View()), SeenPoll(p)).1 || p.currentTime >= M.EndOf(SeenPoll(p), timeout))
      ensures !over ==> left == M.Remaining(SeenPoll(p), timeout)
    {
      left := 0;
      over := Take(p);
      if over {
        return;
      }
      var deadline := (p.startedAt + timeout) % TWO_64;
      if p.currentTime >= deadline {
        over := true;
        return;
      }
      left := (deadline - p.currentTime) % TWO_32;
    }

    /** waitAndReceive over the polls that have happened so far; `done` when it has returned. */
    method WaitAndReceive(adjustment: M.Adjustment, polls: seq<RawPoll>) returns (done: bool)
      requires Valid()
      modifies this, mT1, mT2
      ensures View() == M.WaitAndReceive(old(View()), adjustment, SeenPolls(polls)).c
      ensures done == M.WaitAndReceive(old(View()), adjustment, SeenPolls(polls)).Returned?
    {
      if mNextTimeout == M.NO_TIMEOUT {
        return true;
      }
      var timeout: U32 := CalculateTimeoutMillis(adjustment);
      ghost var end := M.Wait(View(), timeout, SeenPolls(polls));
      var k := 0;
      while k < |polls|
        invariant 0 <= k <= |polls|
        invariant M.Wait(View(), timeout, SeenPolls(polls[k..])) == end
      {
        var p := polls[k];
        SeenSplit(polls, k);
        M.WaitStep(View(), timeout, SeenPoll(p), SeenPolls(polls[k + 1..]));
        var over, left := PollOnce(p, timeout);
        if over {
          return true;
        }
        timeout := left;
        k := k + 1;
      }
      return false;
    }

    /** One round of the loop in run: the frame it sends, if any, and whether the wait has ended. */
    method RunRound(e: Endian, now1: U64, now2: U64, adjustment: M.Adjustment, polls: seq<RawPoll>, rest: Rest)
      returns (frame: Option<seq<Byte>>, done: bool)
      requires Valid()
      modifies this, mT1, mT2
      ensures var r := M.Round(now1, now2, adjustment, SeenPolls(polls));
        && View() == M.AfterRound(old(View()), r)
        && done == M.OneRound(old(View()), r).Returned?
        && match M.Evaluate(old(View()), now1, now2).1
           case None => frame == None
           case Some(b) => frame.Some? && FrameOf(frame.value, b)
    {
      ghost var b := M.Evaluate(View(), now1, now2).1;
      var sent := Evaluate(now1, now2, rest);
      frame := None;
      if sent.Some? {
        M.SendsFromFactory(old(View()), now1, now2);
        var f := SendMessage(e, sent.value, b.value);
        frame := Some(f);
      }
      done := WaitAndReceive(adjustment, polls);
    }
  }
}
