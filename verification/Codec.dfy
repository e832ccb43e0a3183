/** Constants of dhcp.h. */
module Dhcp {
  import opened Words

  const OP_BOOTREQUEST: Byte := 1
  const OP_BOOTREPLY: Byte := 2
  const FLAGS_BROADCAST: U16 := 0x8000
  const HTYPE_ETHER: Byte := 1
  const ETH_ALEN: Byte := 6
  const COOKIE: seq<Byte> := [0x63, 0x82, 0x53, 0x63]

  const OPT_SUBNET_MASK: Byte := 1
  const OPT_GATEWAY: Byte := 3
  const OPT_DNS: Byte := 6
  const OPT_MTU: Byte := 26
  const OPT_BROADCAST_ADDR: Byte := 28
  const OPT_REQUESTED_IP: Byte := 50
  const OPT_LEASE_TIME: Byte := 51
  const OPT_MESSAGE_TYPE: Byte := 53
  const OPT_SERVER_ID: Byte := 54
  const OPT_PARAMETER_LIST: Byte := 55
  const OPT_T1: Byte := 58
  const OPT_T2: Byte := 59
  const OPT_END: Byte := 255

  const DHCPDISCOVER: Byte := 1
  const DHCPOFFER: Byte := 2
  const DHCPREQUEST: Byte := 3
  const DHCPACK: Byte := 5
  const DHCPNAK: Byte := 6

  const PORT_BOOTP_SERVER: U16 := 67
  const PORT_BOOTP_CLIENT: U16 := 68
}

/** The option area of a DHCP message: how it is built, and the two loops that read it. */
module Codec {
  import opened Words
  import opened Dhcp

  type Value = s: seq<Byte> | |s| <= 255

  datatype Tlv = Tlv(code: Byte, value: Value)

  function EncodeOne(t: Tlv): seq<Byte> {
    [t.code, |t.value|] + t.value
  }

  function Encode(ts: seq<Tlv>): seq<Byte>
    decreases |ts|
  {
    if ts == [] then [] else EncodeOne(ts[0]) + Encode(ts[1..])
  }

  lemma {:induction false} EncodeAppend(ts: seq<Tlv>, t: Tlv)
    ensures Encode(ts + [t]) == Encode(ts) + EncodeOne(t)
    decreases |ts|
  {
    if ts == [] {
      assert Encode([t]) == EncodeOne(t) + Encode([]);
    } else {
      EncodeAppend(ts[1..], t);
      assert (ts + [t])[1..] == ts[1..] + [t];
    }
  }

  /** No option is mistaken for the end marker. */
  ghost predicate NoEnd(ts: seq<Tlv>) {
    forall k :: 0 <= k < |ts| ==> ts[k].code != OPT_END
  }

  /** From index `i` on lie the options and then the end marker, all within the first `n` bytes; what
      follows the end marker may be anything. */
  ghost predicate Holds(o: seq<Byte>, n: nat, i: nat, ts: seq<Tlv>) {
    var end := i + |Encode(ts)|;
    && NoEnd(ts) && end < n <= |o|
    && o[i..end] == Encode(ts) && o[end] == OPT_END
  }

  /** The first of the options that lie from index `i` on, and where the others lie. */
  lemma Head(o: seq<Byte>, i: nat, ts: seq<Tlv>)
    requires ts != [] && i + |Encode(ts)| <= |o| && o[i..i + |Encode(ts)|] == Encode(ts)
    ensures var len := |ts[0].value|;
      var next := i + 2 + len;
      && |Encode(ts)| == 2 + len + |Encode(ts[1..])|
      && o[i] == ts[0].code && o[i + 1] == len && o[i + 2..next] == ts[0].value
      && o[next..next + |Encode(ts[1..])|] == Encode(ts[1..])
  {
    var header := [ts[0].code, |ts[0].value|];
    assert Encode(ts) == header + ts[0].value + Encode(ts[1..]);
    ThreeSlices(o, i, header, ts[0].value, Encode(ts[1..]));
    assert o[i] == o[i..i + 2][0] && o[i + 1] == o[i..i + 2][1];
  }

  lemma HoldsHead(o: seq<Byte>, n: nat, i: nat, ts: seq<Tlv>)
    requires Holds(o, n, i, ts) && ts != []
    ensures i + 2 + |ts[0].value| < n
    ensures o[i] == ts[0].code && o[i + 1] == |ts[0].value|
    ensures o[i + 2..i + 2 + |ts[0].value|] == ts[0].value
    ensures Holds(o, n, i + 2 + |ts[0].value|, ts[1..])
  {
    Head(o, i, ts);
  }

  // ---------- getOption: the first match wins ----------

  function FirstMatch(ts: seq<Tlv>, code: Byte): Option<Value>
    decreases |ts|
  {
    if ts == [] then None
    else if ts[0].code == code then Some(ts[0].value)
    else FirstMatch(ts[1..], code)
  }

  lemma {:induction false} FirstMatchIs(ts: seq<Tlv>, code: Byte, k: nat)
    requires k <= |ts| && forall j :: 0 <= j < k ==> ts[j].code != code
    requires k < |ts| ==> ts[k].code == code
    ensures FirstMatch(ts, code) == if k < |ts| then Some(ts[k].value) else None
    decreases |ts|
  {
    if k > 0 {
      FirstMatchIs(ts[1..], code, k - 1);
    }
  }

  /** Index of the value of the first option `code` at or after `i`: the loop of getOption. */
  function FindOption(o: seq<Byte>, n: nat, i: nat, code: Byte): (r: Option<nat>)
    requires n <= |o|
    ensures r.Some? ==> i + 2 <= r.value < n && o[r.value - 2] == code
    decreases n - i
  {
    if i + 2 >= n then None
    else if o[i] == OPT_END then None
    else if o[i] == code then Some(i + 2)
    else FindOption(o, n, i + 2 + o[i + 1], code)
  }

  /** getOption on a built option area finds exactly the first option with the code, and fails
      exactly when there is none. */
  lemma {:induction false} FindsFirstMatch(o: seq<Byte>, n: nat, i: nat, ts: seq<Tlv>, code: Byte)
    requires Holds(o, n, i, ts)
    ensures var r := FindOption(o, n, i, code);
      match FirstMatch(ts, code)
      case None => r == None
      case Some(v) => && r.Some? && o[r.value - 1] == |v|
                      && r.value + |v| < n && o[r.value..r.value + |v|] == v
    decreases |ts|
  {
    if ts == [] {
      assert |Encode(ts)| == 0;
    } else {
      HoldsHead(o, n, i, ts);
      if ts[0].code == code {
        assert FindOption(o, n, i, code) == Some(i + 2);
      } else {
        assert FindOption(o, n, i, code) == FindOption(o, n, i + 2 + |ts[0].value|, code);
        FindsFirstMatch(o, n, i + 2 + |ts[0].value|, ts[1..], code);
      }
    }
  }

  // ---------- configureDhcp: every option is applied in turn ----------

  type FourWords = s: seq<U32> | |s| == 4 witness [0, 0, 0, 0]

  datatype Info = Info(t1: U32, t2: U32, leaseTime: U32, mtu: U16, dns: FourWords,
                       gateway: U32, subnetMask: U32, serverId: U32, offeredAddress: U32)

  const ZERO_INFO := Info(0, 0, 0, 0, [0, 0, 0, 0], 0, 0, 0, 0)

  /** The word at byte `at` of an option value, if the value reaches that far. */
  function WordAt(v: seq<Byte>, at: nat, default: U32): U32 {
    if at + 4 <= |v| then Load32(Big, v[at..at + 4]) else default
  }

  function ApplyOption(d: Info, code: Byte, v: seq<Byte>): Info {
    if code == OPT_LEASE_TIME then if |v| == 4 then d.(leaseTime := Load32(Big, v)) else d
    else if code == OPT_T1 then if |v| == 4 then d.(t1 := Load32(Big, v)) else d
    else if code == OPT_T2 then if |v| == 4 then d.(t2 := Load32(Big, v)) else d
    else if code == OPT_SUBNET_MASK then if |v| == 4 then d.(subnetMask := Load32(Big, v)) else d
    else if code == OPT_GATEWAY then d.(gateway := WordAt(v, 0, d.gateway))
    else if code == OPT_MTU then if |v| == 2 then d.(mtu := Load16(Big, v)) else d
    else if code == OPT_DNS then
      d.(dns := [WordAt(v, 0, d.dns[0]), WordAt(v, 4, d.dns[1]), WordAt(v, 8, d.dns[2]), WordAt(v, 12, d.dns[3])])
    else if code == OPT_SERVER_ID then if |v| == 4 then d.(serverId := Load32(Big, v)) else d
    else d
  }

  /** The loop of configureDhcp from index `i`: what it leaves in the info record, and whether it
      ran to the end. An option that claims to reach past the message stops it. */
  function ScanOptions(o: seq<Byte>, n: nat, i: nat, d: Info): (Info, bool)
    requires n + 1 <= |o|
    decreases n - i
  {
    if i + 1 >= n || o[i] == OPT_END then (d, true)
    else if i + o[i + 1] >= n then (d, false)
    else ScanOptions(o, n, i + 2 + o[i + 1], ApplyOption(d, o[i], o[i + 2..i + 2 + o[i + 1]]))
  }

  function ApplyAll(d: Info, ts: seq<Tlv>): Info
    decreases |ts|
  {
    if ts == [] then d else ApplyAll(ApplyOption(d, ts[0].code, ts[0].value), ts[1..])
  }

  lemma {:induction false} ScanAppliesAll(o: seq<Byte>, n: nat, i: nat, ts: seq<Tlv>, d: Info)
    requires Holds(o, n, i, ts) && n + 1 <= |o|
    ensures ScanOptions(o, n, i, d) == (ApplyAll(d, ts), true)
    decreases |ts|
  {
    if ts == [] {
      assert |Encode(ts)| == 0;
    } else {
      HoldsHead(o, n, i, ts);
      ScanAppliesAll(o, n, i + 2 + |ts[0].value|, ts[1..], ApplyOption(d, ts[0].code, ts[0].value));
    }
  }

  /** Where a built run of options ends and a last option header follows: the loop gets there with all
      of them applied. */
  lemma {:induction false} ScanReaches(o: seq<Byte>, n: nat, i: nat, ts: seq<Tlv>, d: Info, end: nat)
    requires NoEnd(ts) && end == i + |Encode(ts)| && end + 1 < n < |o| && o[i..end] == Encode(ts)
    ensures ScanOptions(o, n, i, d) == ScanOptions(o, n, end, ApplyAll(d, ts))
    decreases |ts|
  {
    if ts != [] {
      var next := i + 2 + |ts[0].value|;
      Head(o, i, ts);
      ScanOne(o, n, i, ts[0], d);
      assert end == next + |Encode(ts[1..])|;
      ScanReaches(o, n, next, ts[1..], ApplyOption(d, ts[0].code, ts[0].value), end);
    }
  }

  lemma ScanOne(o: seq<Byte>, n: nat, i: nat, t: Tlv, d: Info)
    requires i + 2 + |t.value| < n < |o| && t.code != OPT_END
    requires o[i] == t.code && o[i + 1] == |t.value| && o[i + 2..i + 2 + |t.value|] == t.value
    ensures ScanOptions(o, n, i, d) == ScanOptions(o, n, i + 2 + |t.value|, ApplyOption(d, t.code, t.value))
  {
  }

  /** An option cut off by the end of the message: the loop fails if and only if the option reaches more
      than two bytes past the end, because the bounds test forgets the two bytes of its header. One
      that reaches less far is applied with the bytes that happen to follow. */
  lemma CutOffOption(o: seq<Byte>, n: nat, ts: seq<Tlv>, d: Info)
    requires NoEnd(ts) && 4 + |Encode(ts)| + 1 < n < |o| && o[4..4 + |Encode(ts)|] == Encode(ts)
    requires var at := 4 + |Encode(ts)|; o[at] != OPT_END && n < at + 2 + o[at + 1]
    ensures var at := 4 + |Encode(ts)|;
      var value := at + 2;
      ScanOptions(o, n, 4, d) ==
      if value + o[at + 1] > n + 1 then (ApplyAll(d, ts), false)
      else (ApplyOption(ApplyAll(d, ts), o[at], o[value..value + o[at + 1]]), true)
  {
    ScanReaches(o, n, 4, ts, d, 4 + |Encode(ts)|);
    ScanLast(o, n, 4 + |Encode(ts)|, ApplyAll(d, ts));
  }

  lemma ScanLast(o: seq<Byte>, n: nat, at: nat, d: Info)
    requires at + 1 < n < |o| && o[at] != OPT_END && n < at + 2 + o[at + 1]
    ensures var value := at + 2;
      ScanOptions(o, n, at, d) ==
      if value + o[at + 1] > n + 1 then (d, false)
      else (ApplyOption(d, o[at], o[value..value + o[at + 1]]), true)
  {
  }

  // ---------- the two readers agree ----------

  /** The part of the info record that an option code governs. */
  function Governed(d: Info, code: Byte): seq<U32> {
    if code == OPT_LEASE_TIME then [d.leaseTime]
    else if code == OPT_T1 then [d.t1]
    else if code == OPT_T2 then [d.t2]
    else if code == OPT_SUBNET_MASK then [d.subnetMask]
    else if code == OPT_GATEWAY then [d.gateway]
    else if code == OPT_MTU then [d.mtu]
    else if code == OPT_DNS then d.dns
    else if code == OPT_SERVER_ID then [d.serverId]
    else []
  }

  ghost predicate UniqueCodes(ts: seq<Tlv>) {
    forall j, k :: 0 <= j < k < |ts| ==> ts[j].code != ts[k].code
  }

  lemma {:induction false} OtherCodes(d: Info, ts: seq<Tlv>, code: Byte)
    requires forall k :: 0 <= k < |ts| ==> ts[k].code != code
    ensures Governed(ApplyAll(d, ts), code) == Governed(d, code)
    decreases |ts|
  {
    if ts != [] {
      OtherCodes(ApplyOption(d, ts[0].code, ts[0].value), ts[1..], code);
    }
  }

  lemma SameStart(d: Info, e: Info, code: Byte, v: seq<Byte>)
    requires Governed(d, code) == Governed(e, code)
    ensures Governed(ApplyOption(d, code, v), code) == Governed(ApplyOption(e, code, v), code)
  {
    if code == OPT_DNS {
      assert d.dns == e.dns;
    } else if Governed(d, code) != [] {
      assert Governed(d, code)[0] == Governed(e, code)[0];
    }
  }

  /** When no code occurs twice, the loop of configureDhcp, where the last option wins, and
      getOption, where the first wins, read the same value for every code. */
  lemma {:induction false} ReadersAgree(d: Info, ts: seq<Tlv>, code: Byte)
    requires UniqueCodes(ts)
    ensures Governed(ApplyAll(d, ts), code) ==
            match FirstMatch(ts, code)
            case None => Governed(d, code)
            case Some(v) => Governed(ApplyOption(d, code, v), code)
    decreases |ts|
  {
    if ts != [] {
      var d' := ApplyOption(d, ts[0].code, ts[0].value);
      if ts[0].code == code {
        OtherCodes(d', ts[1..], code);
      } else {
        OtherCodes(d, [ts[0]], code);
        assert ApplyAll(d, [ts[0]]) == d';
        ReadersAgree(d', ts[1..], code);
        if FirstMatch(ts[1..], code).Some? {
          SameStart(d', d, code, FirstMatch(ts[1..], code).value);
        }
      }
    }
  }
}
