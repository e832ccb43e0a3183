/** The neighbor discovery proxy: what it forwards to which interface. */
module NdProxy {
  import opened Words
  import opened NdPacket
  import RecursiveDns

  /** The prefix length of a single node's address. */
  const NODE_PREFIX_LENGTH: Byte := 128

  datatype Interface = Interface(index: U32, link: LinkAddress)

  /** The flags of forward. */
  datatype Options = Options(rewriteTarget: bool, rewriteSource: bool, spoof: bool, addRoute: bool, setGateway: bool)

  /** What the proxy does to the outside: an ICMPv6 payload sent on an interface, with the original
      source or the proxy's own, changes to the routing table, and DNS properties. */
  datatype Effect =
    | Send(to: U32, source: Option<seq<Byte>>, destination: seq<Byte>, payload: seq<Byte>)
    | AddRoute(address: seq<Byte>, prefixLength: Byte, via: U32)
    | SetDefaultGateway(address: seq<Byte>, via: U32)
    | SetDns(setting: RecursiveDns.Setting)

  function OuterOptions(t: Type): Option<Options> {
    match t
    case RouterAdvertisement => Some(Options(false, true, false, false, true))
    case NeighborSolicitation => Some(Options(false, false, true, false, false))
    case NeighborAdvertisement => Some(Options(true, false, false, false, false))
    case _ => None
  }

  function InnerOptions(t: Type): Option<Options> {
    match t
    case RouterSolicitation => Some(Options(false, false, true, false, false))
    case NeighborSolicitation => Some(Options(false, false, true, true, false))
    case NeighborAdvertisement => Some(Options(true, false, true, true, false))
    case _ => None
  }

  /** The packet as one interface is to see it. */
  function RewrittenFor(d: Buffer, size: Size, to: Interface, o: Options): Buffer {
    var d1 := if o.rewriteTarget then Rewrite(d, size, ND_OPT_TARGET_LINKADDR, to.link) else d;
    if o.rewriteSource then Rewrite(d1, size, ND_OPT_SOURCE_LINKADDR, to.link) else d1
  }

  function Effects(d: Buffer, size: Size, from: Interface, to: Interface, o: Options): seq<Effect>
    requires size >= IP6_SIZE
  {
    [Send(to.index, if o.spoof then Some(d[8..24]) else None, d[24..40], RewrittenFor(d, size, to, o)[IP6_SIZE..size])]
    + (if o.addRoute then [AddRoute(d[8..24], NODE_PREFIX_LENGTH, from.index)] else [])
    + (if Classify(d, size) == RouterAdvertisement && o.setGateway
       then [SetDefaultGateway(d[8..24], from.index)] else [])
  }

  /** What a broadcast does when every interface gets the packet rewritten from a fresh copy. */
  function BroadcastEffects(d: Buffer, size: Size, from: Interface, tos: seq<Interface>, o: Options): seq<Effect>
    requires size >= IP6_SIZE
    decreases |tos|
  {
    if tos == [] then []
    else BroadcastEffects(d, size, from, tos[..|tos| - 1], o) + Effects(d, size, from, tos[|tos| - 1], o)
  }

  function DnsEffects(settings: seq<RecursiveDns.Setting>): seq<Effect> {
    seq(|settings|, i requires 0 <= i < |settings| => SetDns(settings[i]))
  }

  /** All that a message from an inner interface causes. */
  function InnerEffects(d: Buffer, size: Size, inner: Interface, outer: Interface): seq<Effect> {
    var o := InnerOptions(Classify(d, size));
    if o.None? then [] else Effects(d, size, inner, outer, o.value)
  }

  /** All that a message from the outer interface causes. */
  function OuterEffects(d: Buffer, size: Size, outer: Interface, inner: seq<Interface>): seq<Effect> {
    var o := OuterOptions(Classify(d, size));
    if o.None? then []
    else DnsEffects(if Classify(d, size) == RouterAdvertisement then RecursiveDns.Settings(d, size) else [])
         + BroadcastEffects(d, size, outer, inner, o.value)
  }

  // ---------- the invariance behind the shared buffer ----------

  /** The buffer holds the packet as some earlier interface was to see it. */
  ghost predicate SeenBySome(d: Buffer, d': Buffer, size: Size, o: Options) {
    d' == d || exists to: Interface :: d' == RewrittenFor(d, size, to, o)
  }

  lemma RewrittenFraming(d: Buffer, size: Size, to: Interface, o: Options)
    ensures var d' := RewrittenFor(d, size, to, o);
      SameFraming(d, d') && d'[..IP6_SIZE] == d[..IP6_SIZE] && Classify(d', size) == Classify(d, size)
      && (Walkable(d, size) ==> Walkable(d', size))
  {
    var d1 := if o.rewriteTarget then Rewrite(d, size, ND_OPT_TARGET_LINKADDR, to.link) else d;
    RewriteKeepsFraming(d, size, ND_OPT_TARGET_LINKADDR, to.link);
    RewriteKeepsFraming(d1, size, ND_OPT_SOURCE_LINKADDR, to.link);
    var d' := RewrittenFor(d, size, to, o);
    SameFramingChain(d, d1, d');
    SameWalk(d, d', size);
    assert forall k :: 0 <= k < IP6_SIZE ==> d'[k] == d[k];
  }

  lemma SameFramingChain(a: Buffer, b: Buffer, c: Buffer)
    requires SameFraming(a, b) && SameFraming(b, c)
    ensures SameFraming(a, c)
  {
  }

  /** The byte at x belongs to an address field that these flags rewrite. */
  predicate Rewritten(d: Buffer, ps: seq<Slot>, o: Options, x: nat) {
    || (o.rewriteTarget && InSomeField(d, ps, ND_OPT_TARGET_LINKADDR, x))
    || (o.rewriteSource && InSomeField(d, ps, ND_OPT_SOURCE_LINKADDR, x))
  }

  /** What an interface sees, byte by byte, under any combination of the flags. */
  lemma RewrittenByte(d: Buffer, size: Size, to: Interface, o: Options, x: nat)
    requires x < CAPACITY
    ensures RewrittenFor(d, size, to, o)[x] ==
            if Rewritten(d, Walk(d, size), o, x) then LinkByte(to.link, x) else d[x]
  {
    var d1 := if o.rewriteTarget then Rewrite(d, size, ND_OPT_TARGET_LINKADDR, to.link) else d;
    RewriteSameFields(d, d, size, ND_OPT_TARGET_LINKADDR, to.link, x);
    RewriteKeepsFraming(d, size, ND_OPT_TARGET_LINKADDR, to.link);
    RewriteSameFields(d, d1, size, ND_OPT_SOURCE_LINKADDR, to.link, x);
  }

  /** Rewriting for one interface after another leaves no trace of the other. */
  lemma LastInterfaceWins(d: Buffer, size: Size, first: Interface, to: Interface, o: Options)
    ensures RewrittenFor(RewrittenFor(d, size, first, o), size, to, o) == RewrittenFor(d, size, to, o)
  {
    var d', ps := RewrittenFor(d, size, first, o), Walk(d, size);
    RewrittenFraming(d, size, first, o);
    SameWalk(d, d', size);
    forall x: nat | x < CAPACITY ensures RewrittenFor(d', size, to, o)[x] == RewrittenFor(d, size, to, o)[x] {
      RewrittenByte(d, size, first, o, x);
      RewrittenByte(d, size, to, o, x);
      RewrittenByte(d', size, to, o, x);
      SameFields(d, d', ps, ND_OPT_TARGET_LINKADDR, x);
      SameFields(d, d', ps, ND_OPT_SOURCE_LINKADDR, x);
    }
  }

  /** Forwarding from the shared buffer does what forwarding from the original packet would do, and
      leaves the buffer as that interface was to see it. */
  lemma SharedBufferUnobservable(d: Buffer, d': Buffer, size: Size, from: Interface, to: Interface, o: Options)
    requires SeenBySome(d, d', size, o) && size >= IP6_SIZE
    ensures RewrittenFor(d', size, to, o) == RewrittenFor(d, size, to, o)
    ensures Effects(d', size, from, to, o) == Effects(d, size, from, to, o)
  {
    if d' != d {
      var first: Interface :| d' == RewrittenFor(d, size, first, o);
      LastInterfaceWins(d, size, first, to, o);
      RewrittenFraming(d, size, first, o);
      SameEffects(d, d', size, from, to, o);
    }
  }

  lemma SameEffects(d: Buffer, d': Buffer, size: Size, from: Interface, to: Interface, o: Options)
    requires size >= IP6_SIZE && d'[..IP6_SIZE] == d[..IP6_SIZE] && Classify(d', size) == Classify(d, size)
    requires RewrittenFor(d', size, to, o) == RewrittenFor(d, size, to, o)
    ensures Effects(d', size, from, to, o) == Effects(d, size, from, to, o)
  {
    SliceOfPrefix(d', d, IP6_SIZE, 8, 24);
    SliceOfPrefix(d', d, IP6_SIZE, 24, 40);
  }

  // ---------- the methods ----------

  /** rewriteLinkAddressOption: the option loop that writes into the packet it walks. */
  method RewriteLinkAddressOption(packet: Packet, link: LinkAddress, optionType: Byte)
    requires packet.Valid() && Walkable(packet.mMessage.mData[..], packet.mMessage.mSize)
    modifies packet.mMessage.mData
    ensures packet.Valid()
    ensures packet.mMessage.mData[..] ==
            Rewrite(old(packet.mMessage.mData[..]), packet.mMessage.mSize, optionType, link)
  {
    var data, size := packet.mMessage.mData, packet.mMessage.mSize;
    ghost var d0 := data[..];
    var opt := packet.mFirstOpt;
    while opt.Some?
      invariant SameFraming(d0, data[..]) && packet.Valid()
      invariant opt.Some? ==> packet.mFirstOpt.Some? && packet.mFirstOpt.value <= opt.value
      invariant opt.Some? ==> NoZeroLength(d0, WalkFrom(d0, size, opt.value))
      invariant Rewrite(d0, size, optionType, link) ==
                if opt.Some? then RewriteAt(data[..], WalkFrom(d0, size, opt.value), optionType, link) else data[..]
      decreases if opt.Some? then CAPACITY - opt.value else 0, opt.Some?
    {
      var at := opt.value;
      ghost var here := data[..];
      StepAlong(d0, size, at);
      PatchFraming(d0, here, at, optionType, link);
      SameHead(d0, PatchIf(here, at, optionType, link), size);
      NextIsSame(d0, PatchIf(here, at, optionType, link), size, at);
      RewriteFirst(here, WalkFrom(d0, size, at), optionType, link);
      PatchOption(data, at, link, optionType);
      opt := packet.NextOption(at);
    }
  }

  lemma RewriteFirst(d: Buffer, ps: seq<Slot>, kind: Byte, link: LinkAddress)
    requires ps != []
    ensures RewriteAt(d, ps, kind, link) == RewriteAt(PatchIf(d, ps[0], kind, link), ps[1..], kind, link)
  {
  }

  /** memcpy of the link address behind one option header, if the option has the type. */
  method PatchOption(data: array<Byte>, at: Slot, link: LinkAddress, optionType: Byte)
    requires data.Length == CAPACITY
    modifies data
    ensures data[..] == PatchIf(old(data[..]), at, optionType, link)
  {
    if data[at] == optionType {
      var dest: nat := at + 2;
      var k := 0;
      while k < 6
        invariant 0 <= k <= 6
        invariant forall j :: 0 <= j < k ==> data[dest + j] == link[j]
        invariant forall j :: 0 <= j < CAPACITY && !(dest <= j < dest + k) ==> data[j] == old(data[j])
      {
        data[dest + k] := link[k];
        k := k + 1;
      }
      assert data[..] == old(data[..])[..dest] + link + old(data[..])[dest + 6..];
    }
  }

  lemma PatchFraming(d0: Buffer, d: Buffer, at: Slot, kind: Byte, link: LinkAddress)
    requires SameFraming(d0, d)
    ensures SameFraming(d0, PatchIf(d, at, kind, link))
  {
  }

  lemma NextIsSame(d: Buffer, d': Buffer, size: Size, at: Slot)
    requires SameFraming(d, d')
    ensures NextOpt(d', size, at) == NextOpt(d, size, at)
  {
    assert d'[at + 1] == d[at + 1];
    var next := at + OptLen(d, at);
    if next < size {
      assert next % 8 == 0 && (next + 1) % 8 == 1;
      assert d'[next + 1] == d[next + 1];
    }
  }

  /** The two rewriting steps at the head of forward. */
  method RewriteFor(packet: Packet, to: Interface, options: Options)
    requires packet.Valid()
    requires options.rewriteTarget || options.rewriteSource ==>
               Walkable(packet.mMessage.mData[..], packet.mMessage.mSize)
    modifies packet.mMessage.mData
    ensures packet.Valid()
    ensures packet.mMessage.mData[..] ==
            RewrittenFor(old(packet.mMessage.mData[..]), packet.mMessage.mSize, to, options)
  {
    ghost var d, size := packet.mMessage.mData[..], packet.mMessage.mSize;
    if options.rewriteTarget {
      RewriteLinkAddressOption(packet, to.link, ND_OPT_TARGET_LINKADDR);
      RewriteKeepsFraming(d, size, ND_OPT_TARGET_LINKADDR, to.link);
      SameWalk(d, packet.mMessage.mData[..], size);
    }
    if options.rewriteSource {
      RewriteLinkAddressOption(packet, to.link, ND_OPT_SOURCE_LINKADDR);
    }
  }

  method Forward(from: Interface, to: Interface, packet: Packet, options: Options) returns (effects: seq<Effect>)
    requires packet.Valid() && packet.mMessage.mSize >= IP6_SIZE
    requires options.rewriteTarget || options.rewriteSource ==>
               Walkable(packet.mMessage.mData[..], packet.mMessage.mSize)
    modifies packet.mMessage.mData
    ensures packet.Valid()
    ensures packet.mMessage.mData[..] ==
            RewrittenFor(old(packet.mMessage.mData[..]), packet.mMessage.mSize, to, options)
    ensures effects == Effects(old(packet.mMessage.mData[..]), packet.mMessage.mSize, from, to, options)
  {
    var data, size := packet.mMessage.mData, packet.mMessage.mSize;
    ghost var d := data[..];
    RewriteFor(packet, to, options);
    RewrittenFraming(d, size, to, options);
    SliceOfPrefix(data[..], d, IP6_SIZE, 8, 24);
    SliceOfPrefix(data[..], d, IP6_SIZE, 24, 40);
    assert data[8..24] == data[..][8..24] && data[24..40] == data[..][24..40];
    assert data[IP6_SIZE..size] == data[..][IP6_SIZE..size];
    effects := [Send(to.index, if options.spoof then Some(data[8..24]) else None, data[24..40], data[IP6_SIZE..size])];
    if options.addRoute {
      effects := effects + [AddRoute(data[8..24], NODE_PREFIX_LENGTH, from.index)];
    }
    if packet.mType == RouterAdvertisement && options.setGateway {
      effects := effects + [SetDefaultGateway(data[8..24], from.index)];
    }
  }

  lemma SeenWalkable(d: Buffer, d': Buffer, size: Size, o: Options)
    requires SeenBySome(d, d', size, o) && Walkable(d, size)
    ensures Walkable(d', size)
  {
    if d' != d {
      var first: Interface :| d' == RewrittenFor(d, size, first, o);
      RewrittenFraming(d, size, first, o);
    }
  }

  /** The loop over the inner interfaces: all are served from the same buffer, and each gets the packet
      rewritten for itself, as if from a fresh copy. */
  method Broadcast(outer: Interface, inner: seq<Interface>, packet: Packet, options: Options)
    returns (effects: seq<Effect>)
    requires packet.Valid() && packet.mMessage.mSize >= IP6_SIZE
    requires options.rewriteTarget || options.rewriteSource ==>
               Walkable(packet.mMessage.mData[..], packet.mMessage.mSize)
    modifies packet.mMessage.mData
    ensures packet.Valid()
    ensures var d, size := old(packet.mMessage.mData[..]), packet.mMessage.mSize;
      && effects == BroadcastEffects(d, size, outer, inner, options)
      && packet.mMessage.mData[..] == if inner == [] then d
                                      else RewrittenFor(d, size, inner[|inner| - 1], options)
  {
    ghost var d, size := packet.mMessage.mData[..], packet.mMessage.mSize;
    effects := [];
    var k := 0;
    while k < |inner|
      invariant 0 <= k <= |inner|
      invariant packet.Valid()
      invariant packet.mMessage.mData[..] == if k == 0 then d else RewrittenFor(d, size, inner[k - 1], options)
      invariant effects == BroadcastEffects(d, size, outer, inner[..k], options)
    {
      ghost var d' := packet.mMessage.mData[..];
      SharedBufferUnobservable(d, d', size, outer, inner[k], options);
      if Walkable(d, size) {
        SeenWalkable(d, d', size, options);
      }
      var sent := Forward(outer, inner[k], packet, options);
      effects := effects + sent;
      assert inner[..k + 1][..k] == inner[..k];
      k := k + 1;
    }
    assert inner[..k] == inner;
  }

  /** A message from the outer interface: the DNS servers of a router advertisement are read first, then
      the packet goes to every inner interface. */
  method HandleOuterMessage(outer: Interface, inner: seq<Interface>, message: Message) returns (effects: seq<Effect>)
    requires message.Valid()
    requires Classify(message.mData[..], message.mSize) in {RouterAdvertisement, NeighborAdvertisement} ==>
               Walkable(message.mData[..], message.mSize)
    modifies message.mData
    ensures var d := old(message.mData[..]);
      var o := OuterOptions(Classify(d, message.mSize));
      && effects == OuterEffects(d, message.mSize, outer, inner)
      && message.mData[..] == if o.None? || inner == [] then d
                              else RewrittenFor(d, message.mSize, inner[|inner| - 1], o.value)
  {
    var packet := new Packet(message);
    var options := OuterOptions(packet.mType);
    if options.None? {
      return [];
    }
    var dns := [];
    if packet.mType == RouterAdvertisement {
      dns := RecursiveDns.ExtractRecursiveDnsServers(packet);
    }
    var sent := Broadcast(outer, inner, packet, options.value);
    effects := DnsEffects(dns) + sent;
  }

  method HandleInnerMessage(outer: Interface, inner: Interface, message: Message) returns (effects: seq<Effect>)
    requires message.Valid()
    requires Classify(message.mData[..], message.mSize) == NeighborAdvertisement ==>
               Walkable(message.mData[..], message.mSize)
    modifies message.mData
    ensures var d := old(message.mData[..]);
      var o := InnerOptions(Classify(d, message.mSize));
      && effects == InnerEffects(d, message.mSize, inner, outer)
      && message.mData[..] == if o.None? then d else RewrittenFor(d, message.mSize, outer, o.value)
  {
    var packet := new Packet(message);
    var options := InnerOptions(packet.mType);
    if options.None? {
      return [];
    }
    effects := Forward(inner, outer, packet, options.value);
  }

  // ---------- what an inner interface receives ----------

  /** The packets among the effects, in order. */
  function Sends(es: seq<Effect>): seq<Effect>
    decreases |es|
  {
    if es == [] then []
    else if es[0].Send? then [es[0]] + Sends(es[1..])
    else Sends(es[1..])
  }

  lemma {:induction false} SendsConcat(a: seq<Effect>, b: seq<Effect>)
    ensures Sends(a + b) == Sends(a) + Sends(b)
    decreases |a|
  {
    if a == [] {
      assert a + b == b;
    } else {
      SendsConcat(a[1..], b);
      assert (a + b)[1..] == a[1..] + b;
    }
  }

  lemma OneSend(d: Buffer, size: Size, from: Interface, to: Interface, o: Options)
    requires size >= IP6_SIZE
    ensures Sends(Effects(d, size, from, to, o)) == [Effects(d, size, from, to, o)[0]]
  {
    var es := Effects(d, size, from, to, o);
    assert es[1..] == (if o.addRoute then [AddRoute(d[8..24], NODE_PREFIX_LENGTH, from.index)] else [])
      + (if Classify(d, size) == RouterAdvertisement && o.setGateway
         then [SetDefaultGateway(d[8..24], from.index)] else []);
    NoSends(es[1..]);
  }

  lemma {:induction false} NoSends(es: seq<Effect>)
    requires forall k :: 0 <= k < |es| ==> !es[k].Send?
    ensures Sends(es) == []
    decreases |es|
  {
    if es != [] {
      NoSends(es[1..]);
    }
  }

  /** Every inner interface receives exactly one packet per broadcast, in order: the original outside
      the address fields, and in every matching option the link address of that very interface. */
  lemma {:induction false} EachInnerGetsItsOwn(d: Buffer, size: Size, from: Interface, tos: seq<Interface>,
                                               o: Options, k: nat)
    requires size >= IP6_SIZE && k < |tos|
    ensures var sent := Sends(BroadcastEffects(d, size, from, tos, o));
      && |sent| == |tos|
      && sent[k] == Send(tos[k].index, if o.spoof then Some(d[8..24]) else None, d[24..40],
                         RewrittenFor(d, size, tos[k], o)[IP6_SIZE..size])
    decreases |tos|
  {
    var front, last := tos[..|tos| - 1], tos[|tos| - 1];
    SendsConcat(BroadcastEffects(d, size, from, front, o), Effects(d, size, from, last, o));
    OneSend(d, size, from, last, o);
    if k < |front| {
      EachInnerGetsItsOwn(d, size, from, front, o, k);
    } else if front != [] {
      EachInnerGetsItsOwn(d, size, from, front, o, 0);
    }
  }
}
