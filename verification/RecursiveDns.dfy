/** The recursive DNS servers of a router advertisement (RFC 8106, section 5.1), which the proxy copies
    into four system properties. */
module RecursiveDns {
  import opened Words
  import opened NdOptions
  import opened NdPacket

  const ND_OPT_RDNSS: Byte := 25
  const HEADER_SIZE: nat := 8
  const PROPERTY_COUNT: nat := 4

  /** net.eth0.ipv6dns1 to net.eth0.ipv6dns4; the address is kept as its sixteen bytes, and None is
      the empty string that clears the property. */
  datatype Setting = Setting(slot: nat, address: Option<seq<Byte>>)

  predicate IsRdnss(d: Buffer, at: Slot) {
    d[at] == ND_OPT_RDNSS && d[at + 1] >= 1
  }

  function EntryCount(d: Buffer, at: Slot): nat
    requires IsRdnss(d, at)
  {
    (d[at + 1] as nat - 1) / 2
  }

  predicate Fits(d: Buffer, at: Slot) {
    at + OptLen(d, at) <= CAPACITY
  }

  /** The i-th address lies inside the option. */
  lemma EntryInside(d: Buffer, at: Slot, i: nat)
    requires IsRdnss(d, at) && i < EntryCount(d, at)
    ensures at + HEADER_SIZE + 16 * i + 16 <= at + OptLen(d, at)
  {
  }

  function Servers(d: Buffer, at: Slot): seq<seq<Byte>>
    requires IsRdnss(d, at) && Fits(d, at)
  {
    seq(EntryCount(d, at), i requires 0 <= i < EntryCount(d, at) =>
      (EntryInside(d, at, i); d[at + HEADER_SIZE + 16 * i..at + HEADER_SIZE + 16 * i + 16]))
  }

  /** What one property is set to by an option that announces these servers. */
  function Slotted(servers: seq<seq<Byte>>, slot: nat): Option<seq<Byte>> {
    if 1 <= slot <= |servers| then Some(servers[slot - 1]) else None
  }

  function Publish(servers: seq<seq<Byte>>, count: nat): seq<Setting> {
    seq(count, i requires 0 <= i < count => Setting(i + 1, Slotted(servers, i + 1)))
  }

  function SettingsAt(d: Buffer, at: Slot): seq<Setting>
    requires Fits(d, at)
  {
    if IsRdnss(d, at) then Publish(Servers(d, at), PROPERTY_COUNT) else []
  }

  /** The property writes for a run of options, in order. */
  function SettingsOf(d: Buffer, ps: seq<Slot>): seq<Setting>
    requires forall k :: 0 <= k < |ps| ==> Fits(d, ps[k])
    decreases |ps|
  {
    if ps == [] then [] else SettingsAt(d, ps[0]) + SettingsOf(d, ps[1..])
  }

  lemma {:induction false} WalkFits(d: Buffer, size: Size, at: Slot)
    requires at + OptLen(d, at) <= size
    ensures forall k :: 0 <= k < |WalkFrom(d, size, at)| ==> Fits(d, WalkFrom(d, size, at)[k])
    decreases CAPACITY - at
  {
    var next := NextOpt(d, size, at);
    if next.Some? && next.value != at {
      WalkFits(d, size, next.value);
    }
  }

  lemma AllFit(d: Buffer, size: Size)
    ensures forall k :: 0 <= k < |Walk(d, size)| ==> Fits(d, Walk(d, size)[k])
  {
    if FirstOpt(d, size).Some? {
      WalkFits(d, size, FirstOpt(d, size).value);
    }
  }

  /** Every property write for one packet. */
  function Settings(d: Buffer, size: Size): seq<Setting> {
    AllFit(d, size);
    SettingsOf(d, Walk(d, size))
  }

  // ---------- what is left in the properties ----------

  /** The four properties after some writes. */
  function Table(writes: seq<Setting>, before: map<nat, Option<seq<Byte>>>): map<nat, Option<seq<Byte>>>
    decreases |writes|
  {
    if writes == [] then before else Table(writes[1..], before[writes[0].slot := writes[0].address])
  }

  lemma {:induction false} TableConcat(a: seq<Setting>, b: seq<Setting>, before: map<nat, Option<seq<Byte>>>)
    ensures Table(a + b, before) == Table(b, Table(a, before))
    decreases |a|
  {
    if a == [] {
      assert a + b == b;
    } else {
      assert (a + b)[1..] == a[1..] + b;
      TableConcat(a[1..], b, before[a[0].slot := a[0].address]);
    }
  }

  /** The first `count` properties as an announcement of these servers is to leave them. */
  function Announced(servers: seq<seq<Byte>>, count: nat): map<nat, Option<seq<Byte>>> {
    map slot: nat | 1 <= slot <= count :: Slotted(servers, slot)
  }

  lemma {:induction false} PublishTable(servers: seq<seq<Byte>>, count: nat, before: map<nat, Option<seq<Byte>>>)
    ensures Table(Publish(servers, count), before) ==
            before + Announced(servers, count)
  {
    if count > 0 {
      var front, last := Publish(servers, count - 1), Setting(count, Slotted(servers, count));
      assert Publish(servers, count) == front + [last];
      PublishTable(servers, count - 1, before);
      TableConcat(front, [last], before);
      assert [last][1..] == [];
    }
  }

  lemma AnnouncedAnew(a: seq<seq<Byte>>, b: seq<seq<Byte>>, count: nat, before: map<nat, Option<seq<Byte>>>)
    ensures before + Announced(a, count) + Announced(b, count) == before + Announced(b, count)
  {
  }

  /** The last announcement of a packet alone decides all four properties: its first four servers,
      with the rest cleared, whatever came before it. A packet that announces none changes nothing. */
  lemma {:induction false} LastAnnouncementWins(d: Buffer, ps: seq<Slot>, before: map<nat, Option<seq<Byte>>>, k: nat)
    requires forall j :: 0 <= j < |ps| ==> Fits(d, ps[j])
    requires k <= |ps| && forall j :: k <= j < |ps| ==> !IsRdnss(d, ps[j])
    requires k > 0 ==> IsRdnss(d, ps[k - 1])
    ensures Table(SettingsOf(d, ps), before) ==
            if k == 0 then before
            else before + Announced(Servers(d, ps[k - 1]), PROPERTY_COUNT)
    decreases |ps|
  {
    if ps != [] {
      var mid := Table(SettingsAt(d, ps[0]), before);
      TableConcat(SettingsAt(d, ps[0]), SettingsOf(d, ps[1..]), before);
      if IsRdnss(d, ps[0]) {
        PublishTable(Servers(d, ps[0]), PROPERTY_COUNT, before);
      }
      assert k > 1 ==> ps[1..][k - 2] == ps[k - 1];
      LastAnnouncementWins(d, ps[1..], mid, if k == 0 then 0 else k - 1);
      if k > 1 && IsRdnss(d, ps[0]) {
        AnnouncedAnew(Servers(d, ps[0]), Servers(d, ps[k - 1]), PROPERTY_COUNT, before);
      }
    }
  }

  // ---------- announcements as they are laid out ----------

  type Address6 = s: seq<Byte> | |s| == 16 witness Zeros(16)

  function AddressList(servers: seq<Address6>): (s: seq<Byte>)
    ensures |s| == 16 * |servers|
    decreases |servers|
  {
    if servers == [] then [] else servers[0] + AddressList(servers[1..])
  }

  lemma {:induction false} ListedAt(servers: seq<Address6>, i: nat)
    requires i < |servers|
    ensures AddressList(servers)[16 * i..16 * i + 16] == servers[i]
    decreases |servers|
  {
    var first: seq<Byte>, rest: seq<Byte> := servers[0], AddressList(servers[1..]);
    if i > 0 {
      ListedAt(servers[1..], i - 1);
      assert (first + rest)[16 * i..16 * i + 16] == rest[16 * (i - 1)..16 * (i - 1) + 16];
    }
  }

  /** An option of type 25: reserved bytes and lifetime, the servers, and perhaps one more group of eight
      bytes, too short for another server. */
  predicate IsAnnouncement(o: NdOption, head: seq<Byte>, servers: seq<Address6>, extra: seq<Byte>) {
    && o.kind == 25 && |head| == 6 && |extra| in {0, 8}
    && o.body == head + AddressList(servers) + extra
  }

  /** The servers of an announcement are read back, all of them and in order. */
  lemma ServersReadBack(d: Buffer, at: Slot, o: NdOption, head: seq<Byte>, servers: seq<Address6>, extra: seq<Byte>)
    requires at + 8 * o.words <= CAPACITY && d[at..at + 8 * o.words] == EncodeOption(o)
    requires IsAnnouncement(o, head, servers, extra)
    ensures IsRdnss(d, at) && Fits(d, at) && Servers(d, at) == servers
  {
    var s := d[at..at + 8 * o.words];
    assert d[at] == s[0] == 25 && d[at + 1] == s[1] == o.words;
    assert EntryCount(d, at) == |servers|;
    assert s == ([o.kind, o.words] + head) + AddressList(servers) + extra;
    forall i | 0 <= i < |servers| ensures Servers(d, at)[i] == servers[i] {
      EntryInside(d, at, i);
      ServerInside(s, [o.kind, o.words] + head, servers, extra, i);
      SubSlice(d, at, |s|, 8 + 16 * i, 8 + 16 * i + 16);
    }
  }

  lemma ServerInside(s: seq<Byte>, header: seq<Byte>, servers: seq<Address6>, extra: seq<Byte>, i: nat)
    requires |header| == 8 && s == header + AddressList(servers) + extra && i < |servers|
    ensures s[8 + 16 * i..8 + 16 * i + 16] == servers[i]
  {
    var list := AddressList(servers);
    assert s[8..8 + |list|] == list;
    ListedAt(servers, i);
    SubSlice(s, 8, |list|, 16 * i, 16 * i + 16);
  }

  lemma {:induction false} PlaceOf(d: Buffer, size: Size, at: nat, os: seq<NdOption>, tail: seq<Byte>, k: nat)
    requires Hold(d, size, at, os, tail) && at >= 40 && at % 8 == 0 && k < |os|
    ensures var p := Places(at, os)[k];
      p + 8 * os[k].words <= CAPACITY && d[p..p + 8 * os[k].words] == EncodeOption(os[k]) && d[p] == os[k].kind
    decreases |os|
  {
    HoldHead(d, size, at, os, tail);
    if k > 0 {
      var next := at + 8 * (os[0].words as int);
      PlaceOf(d, size, next, os[1..], tail, k - 1);
      assert Places(at, os)[k] == Places(next, os[1..])[k - 1] && os[1..][k - 1] == os[k];
    }
  }

  /** End to end: of a packet whose last announcement is its k-th option, the first four servers of that
      option are what the properties hold afterwards; those beyond its last server are cleared, and no
      other property is touched. */
  lemma AnnouncementSets(d: Buffer, size: Size, icmpType: Byte, length: nat, os: seq<NdOption>, tail: seq<Byte>,
                         k: nat, head: seq<Byte>, servers: seq<Address6>, extra: seq<Byte>,
                         before: map<nat, Option<seq<Byte>>>, slot: nat)
    requires LaidOut(d, size, icmpType, length, os, tail) && k < |os|
    requires IsAnnouncement(os[k], head, servers, extra) && forall j :: k < j < |os| ==> os[j].kind != 25
    ensures var table := Table(Settings(d, size), before);
      if slot in {1, 2, 3, 4}
      then slot in table && table[slot] == if slot <= |servers| then Some(servers[slot - 1]) else None
      else (slot in table <==> slot in before) && (slot in table ==> table[slot] == before[slot])
  {
    var at, ps := 40 + length, Walk(d, size);
    PacketIsRead(d, size, icmpType, length, os, tail);
    AllFit(d, size);
    PlaceOf(d, size, at, os, tail, k);
    ServersReadBack(d, ps[k], os[k], head, servers, extra);
    forall j | k + 1 <= j < |ps| ensures !IsRdnss(d, ps[j]) {
      PlaceOf(d, size, at, os, tail, j);
    }
    LastAnnouncementWins(d, ps, before, k + 1);
  }

  // ---------- the method ----------

  /** The addresses of one option. */
  method ReadServers(packet: Packet, at: Slot) returns (servers: seq<seq<Byte>>)
    requires packet.Valid()
    requires var d := packet.mMessage.mData[..]; IsRdnss(d, at) && Fits(d, at)
    ensures servers == Servers(packet.mMessage.mData[..], at)
  {
    var data := packet.mMessage.mData;
    ghost var d := data[..];
    var numEntries: nat := (data[at + 1] as nat - 1) / 2;
    var option: nat := at + HEADER_SIZE;
    servers := [];
    var i := 0;
    while i < numEntries
      invariant 0 <= i <= numEntries == EntryCount(d, at)
      invariant servers == Servers(d, at)[..i]
    {
      EntryInside(d, at, i);
      servers := servers + [data[option + 16 * i..option + 16 * i + 16]];
      i := i + 1;
    }
  }

  /** The inner loop: the first four servers, then the empty string. */
  method SetProperties(servers: seq<seq<Byte>>) returns (writes: seq<Setting>)
    ensures writes == Publish(servers, PROPERTY_COUNT)
  {
    writes := [];
    var server := 0;
    var i := 1;
    while i <= PROPERTY_COUNT
      invariant 1 <= i <= PROPERTY_COUNT + 1
      invariant server == if i - 1 <= |servers| then i - 1 else |servers|
      invariant writes == Publish(servers, i - 1)
    {
      if server != |servers| {
        writes := writes + [Setting(i, Some(servers[server]))];
        server := server + 1;
      } else {
        writes := writes + [Setting(i, None)];
      }
      i := i + 1;
    }
  }

  /** The loop is at an option that fits the packet, with none of length zero from there on. */
  ghost predicate Ahead(d: Buffer, size: Size, opt: Option<Slot>) {
    opt.Some? ==>
      && FirstOpt(d, size).Some? && FirstOpt(d, size).value <= opt.value
      && opt.value + OptLen(d, opt.value) <= size
      && NoZeroLength(d, WalkFrom(d, size, opt.value))
  }

  /** The writes still to come. */
  ghost function Pending(d: Buffer, size: Size, opt: Option<Slot>): seq<Setting>
    requires Ahead(d, size, opt)
  {
    if opt.None? then []
    else
      WalkFits(d, size, opt.value);
      SettingsOf(d, WalkFrom(d, size, opt.value))
  }

  lemma PendingFirst(d: Buffer, size: Size)
    requires Walkable(d, size)
    ensures Ahead(d, size, FirstOpt(d, size)) && Pending(d, size, FirstOpt(d, size)) == Settings(d, size)
  {
  }

  lemma PendingStep(d: Buffer, size: Size, at: Slot)
    requires Ahead(d, size, Some(at))
    ensures FirstOpt(d, size).Some? && FirstOpt(d, size).value <= at && Fits(d, at)
    ensures var next := NextOpt(d, size, at);
      && Ahead(d, size, next) && (next.Some? ==> next.value > at)
      && Pending(d, size, Some(at)) == SettingsAt(d, at) + Pending(d, size, next)
  {
    var ps := WalkFrom(d, size, at);
    StepAlong(d, size, at);
    WalkFits(d, size, at);
    assert SettingsOf(d, ps) == SettingsAt(d, ps[0]) + SettingsOf(d, ps[1..]);
  }

  /** The loop body. */
  method PublishOption(packet: Packet, at: Slot) returns (writes: seq<Setting>)
    requires packet.Valid() && Fits(packet.mMessage.mData[..], at)
    ensures writes == SettingsAt(packet.mMessage.mData[..], at)
  {
    var data := packet.mMessage.mData;
    if data[at] != ND_OPT_RDNSS || data[at + 1] < 1 {
      return [];
    }
    var servers := ReadServers(packet, at);
    writes := SetProperties(servers);
  }

  lemma Regroup(a: seq<Setting>, b: seq<Setting>, c: seq<Setting>)
    ensures a + (b + c) == (a + b) + c
  {
  }

  lemma PendingMoves(d: Buffer, size: Size, at: Slot, next: Option<Slot>, before: seq<Setting>, now: seq<Setting>)
    requires Ahead(d, size, Some(at)) && next == NextOpt(d, size, at)
    requires Settings(d, size) == before + Pending(d, size, Some(at))
    requires Fits(d, at) && now == before + SettingsAt(d, at)
    ensures Ahead(d, size, next) && Settings(d, size) == now + Pending(d, size, next)
  {
    PendingStep(d, size, at);
    Regroup(before, SettingsAt(d, at), Pending(d, size, next));
  }

  /** extractRecursiveDnsServers. */
  method ExtractRecursiveDnsServers(packet: Packet) returns (writes: seq<Setting>)
    requires packet.Valid() && Walkable(packet.mMessage.mData[..], packet.mMessage.mSize)
    ensures writes == Settings(packet.mMessage.mData[..], packet.mMessage.mSize)
  {
    ghost var d, size := packet.mMessage.mData[..], packet.mMessage.mSize;
    PendingFirst(d, size);
    writes := [];
    var opt: Option<Slot> := packet.mFirstOpt;
    while opt.Some?
      invariant Ahead(d, size, opt) && Settings(d, size) == writes + Pending(d, size, opt)
      decreases if opt.Some? then CAPACITY - opt.value else 0, opt.Some?
    {
      var at := opt.value;
      ghost var before := writes;
      PendingStep(d, size, at);
      var published := PublishOption(packet, at);
      writes := writes + published;
      opt := packet.NextOption(at);
      PendingMoves(d, size, at, opt, before, writes);
    }
  }
}
