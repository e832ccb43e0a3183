/** What the proxy does with each type of packet, told without its option flags. */
module NdForwarding {
  import opened Words
  import opened NdPacket
  import opened NdOptions
  import opened NdProxy
  import RecursiveDns

  /** The effect sends the packet on this interface: to the original destination, with its own or the
      original source, and byte by byte as received, but with the interface's own link address in every
      walked option of the given type. */
  ghost predicate Arrives(e: Effect, to: Interface, source: Option<seq<Byte>>, d: Buffer, size: Size,
                          kind: Option<Byte>)
  {
    && e.Send? && e.to == to.index && e.source == source && e.destination == d[24..40]
    && size >= 40 && |e.payload| == size - 40
    && forall x: nat :: 40 <= x < size ==>
         e.payload[x - 40] ==
         if kind.Some? && InSomeField(d, Walk(d, size), kind.value, x) then LinkByte(to.link, x) else d[x]
  }

  lemma PayloadByte(d: Buffer, size: Size, to: Interface, o: Options, kind: Option<Byte>)
    requires size >= 40
    requires kind in {None, Some(1), Some(2)}
    requires o.rewriteTarget == (kind == Some(2)) && o.rewriteSource == (kind == Some(1))
    ensures var s := RewrittenFor(d, size, to, o)[40..size];
      forall x: nat :: 40 <= x < size ==>
        s[x - 40] == if kind.Some? && InSomeField(d, Walk(d, size), kind.value, x) then LinkByte(to.link, x) else d[x]
  {
    forall x: nat | 40 <= x < size
      ensures RewrittenFor(d, size, to, o)[x] ==
              if kind.Some? && InSomeField(d, Walk(d, size), kind.value, x) then LinkByte(to.link, x) else d[x]
    {
      RewrittenByte(d, size, to, o, x);
    }
  }

  // ---------- broadcasts, effect by effect ----------

  lemma {:induction false} OneEach(d: Buffer, size: Size, from: Interface, tos: seq<Interface>, o: Options, k: nat)
    requires size >= IP6_SIZE && k < |tos|
    requires !o.addRoute && !(Classify(d, size) == RouterAdvertisement && o.setGateway)
    ensures var es := BroadcastEffects(d, size, from, tos, o);
      var one := Effects(d, size, from, tos[k], o);
      |es| == |tos| && |one| == 1 && es[k] == one[0]
    decreases |tos|
  {
    var front := tos[..|tos| - 1];
    if front != [] {
      OneEach(d, size, from, front, o, if k < |front| then k else 0);
    }
  }

  lemma {:induction false} TwoEach(d: Buffer, size: Size, from: Interface, tos: seq<Interface>, o: Options, k: nat)
    requires size >= IP6_SIZE && k < |tos|
    requires !o.addRoute && Classify(d, size) == RouterAdvertisement && o.setGateway
    ensures var es := BroadcastEffects(d, size, from, tos, o);
      var two := Effects(d, size, from, tos[k], o);
      |es| == 2 * |tos| && |two| == 2 && es[2 * k] == two[0] && es[2 * k + 1] == two[1]
    decreases |tos|
  {
    var front := tos[..|tos| - 1];
    if front != [] {
      TwoEach(d, size, from, front, o, if k < |front| then k else 0);
    }
  }

  // ---------- from the outer interface ----------

  lemma OneOut(d: Buffer, size: Size, outer: Interface, inner: seq<Interface>, o: Options, k: nat)
    requires Classify(d, size) in {NeighborSolicitation, NeighborAdvertisement} && k < |inner|
    requires OuterOptions(Classify(d, size)) == Some(o) && !o.addRoute
    ensures var es := OuterEffects(d, size, outer, inner);
      && |es| == |inner|
      && es[k] == Send(inner[k].index, if o.spoof then Some(d[8..24]) else None, d[24..40],
                       RewrittenFor(d, size, inner[k], o)[40..size])
  {
    OneEach(d, size, outer, inner, o, k);
    assert OuterEffects(d, size, outer, inner) == BroadcastEffects(d, size, outer, inner, o);
  }

  lemma TwoOut(d: Buffer, size: Size, outer: Interface, inner: seq<Interface>, o: Options, k: nat)
    requires Classify(d, size) == RouterAdvertisement && k < |inner|
    requires OuterOptions(RouterAdvertisement) == Some(o) && !o.addRoute && o.setGateway
    ensures var es, n := OuterEffects(d, size, outer, inner), |RecursiveDns.Settings(d, size)|;
      && |es| == n + 2 * |inner|
      && (forall i :: 0 <= i < n ==> es[i] == SetDns(RecursiveDns.Settings(d, size)[i]))
      && es[n + 2 * k] == Send(inner[k].index, if o.spoof then Some(d[8..24]) else None, d[24..40],
                               RewrittenFor(d, size, inner[k], o)[40..size])
      && es[n + 2 * k + 1] == SetDefaultGateway(d[8..24], outer.index)
  {
    TwoEach(d, size, outer, inner, o, k);
    var dns := DnsEffects(RecursiveDns.Settings(d, size));
    assert OuterEffects(d, size, outer, inner) == dns + BroadcastEffects(d, size, outer, inner, o);
  }

  /** A router advertisement: its DNS servers are set, then every inner interface gets it under the
      proxy's own source, with its own address in the source link-address options alone, and the
      sender becomes the default gateway through the outer interface. */
  lemma RouterAdvertisementOut(d: Buffer, size: Size, outer: Interface, inner: seq<Interface>, k: nat)
    requires Classify(d, size) == RouterAdvertisement && k < |inner|
    ensures var es, n := OuterEffects(d, size, outer, inner), |RecursiveDns.Settings(d, size)|;
      && |es| == n + 2 * |inner|
      && (forall i :: 0 <= i < n ==> es[i] == SetDns(RecursiveDns.Settings(d, size)[i]))
      && Arrives(es[n + 2 * k], inner[k], None, d, size, Some(1))
      && es[n + 2 * k + 1] == SetDefaultGateway(d[8..24], outer.index)
  {
    var o := OuterOptions(RouterAdvertisement).value;
    TwoOut(d, size, outer, inner, o, k);
    PayloadByte(d, size, inner[k], o, Some(1));
  }

  /** A neighbor solicitation: every inner interface gets it unchanged, from its original source. */
  lemma NeighborSolicitationOut(d: Buffer, size: Size, outer: Interface, inner: seq<Interface>, k: nat)
    requires Classify(d, size) == NeighborSolicitation && k < |inner|
    ensures var es := OuterEffects(d, size, outer, inner);
      |es| == |inner| && Arrives(es[k], inner[k], Some(d[8..24]), d, size, None)
  {
    var o := OuterOptions(NeighborSolicitation).value;
    OneOut(d, size, outer, inner, o, k);
    PayloadByte(d, size, inner[k], o, None);
  }

  /** A neighbor advertisement: every inner interface gets it under the proxy's own source, with its own
      address in the target link-address options alone. */
  lemma NeighborAdvertisementOut(d: Buffer, size: Size, outer: Interface, inner: seq<Interface>, k: nat)
    requires Classify(d, size) == NeighborAdvertisement && k < |inner|
    ensures var es := OuterEffects(d, size, outer, inner);
      |es| == |inner| && Arrives(es[k], inner[k], None, d, size, Some(2))
  {
    var o := OuterOptions(NeighborAdvertisement).value;
    OneOut(d, size, outer, inner, o, k);
    PayloadByte(d, size, inner[k], o, Some(2));
  }

  /** Nothing else that arrives from outside has any effect, and without inner interfaces only the DNS
      servers of a router advertisement have one. */
  lemma SilentOut(d: Buffer, size: Size, outer: Interface, inner: seq<Interface>)
    ensures Classify(d, size) in {RouterSolicitation, Other} ==> OuterEffects(d, size, outer, inner) == []
    ensures inner == [] && Classify(d, size) != RouterAdvertisement ==> OuterEffects(d, size, outer, inner) == []
    ensures inner == [] && Classify(d, size) == RouterAdvertisement ==>
              OuterEffects(d, size, outer, inner) == DnsEffects(RecursiveDns.Settings(d, size))
  {
  }

  // ---------- from an inner interface ----------

  /** From inside: solicitations go out unchanged and advertisements with the outer interface's address in
      the target options, all from their original source; the sender of a neighbor message, as a single
      node, is routed through the inner interface; nothing else has any effect. */
  lemma InnerByType(d: Buffer, size: Size, inner: Interface, outer: Interface)
    ensures var es, source := InnerEffects(d, size, inner, outer), Some(d[8..24]);
      match Classify(d, size)
      case RouterSolicitation => |es| == 1 && Arrives(es[0], outer, source, d, size, None)
      case NeighborSolicitation =>
        && |es| == 2 && Arrives(es[0], outer, source, d, size, None)
        && es[1] == AddRoute(d[8..24], 128, inner.index)
      case NeighborAdvertisement =>
        && |es| == 2 && Arrives(es[0], outer, source, d, size, Some(2))
        && es[1] == AddRoute(d[8..24], 128, inner.index)
      case _ => es == []
  {
    var o := InnerOptions(Classify(d, size));
    if o.Some? {
      PayloadByte(d, size, outer, o.value, if Classify(d, size) == NeighborAdvertisement then Some(2) else None);
    }
  }

  // ---------- packets that are laid out ----------

  lemma PayloadParts(d: Buffer, d': Buffer, size: Size, icmpType: Byte, length: nat, os: seq<NdOption>,
                     tail: seq<Byte>)
    requires LaidOut(d', size, icmpType, length, os, tail) && d'[..40 + length] == d[..40 + length]
    ensures d'[40..size] == d[40..40 + length] + EncodeOptions(os) + tail
  {
    SliceOfPrefix(d', d, 40 + length, 40, 40 + length);
    assert d'[40..size] == d'[40..40 + length] + d'[40 + length..size];
  }

  /** End to end for a router advertisement with any options: what the k-th inner interface gets is the
      same message with the same options, its own address in place of the router's. */
  lemma RouterAdvertisementArrives(d: Buffer, size: Size, os: seq<NdOption>, tail: seq<Byte>, outer: Interface,
                                   inner: seq<Interface>, k: nat)
    requires LaidOut(d, size, 134, 16, os, tail) && k < |inner|
    ensures var es, n := OuterEffects(d, size, outer, inner), |RecursiveDns.Settings(d, size)|;
      && |es| == n + 2 * |inner|
      && es[n + 2 * k] == Send(inner[k].index, None, d[24..40],
                               d[40..56] + EncodeOptions(Readdressed(os, 1, inner[k].link)) + tail)
  {
    PacketIsRead(d, size, 134, 16, os, tail);
    var o := OuterOptions(RouterAdvertisement).value;
    TwoOut(d, size, outer, inner, o, k);
    RewriteReaddresses(d, size, 134, 16, os, tail, 1, inner[k].link);
    PayloadParts(d, Rewrite(d, size, 1, inner[k].link), size, 134, 16, Readdressed(os, 1, inner[k].link), tail);
  }

  /** The same for a neighbor advertisement, in both directions. */
  lemma NeighborAdvertisementArrives(d: Buffer, size: Size, os: seq<NdOption>, tail: seq<Byte>, outer: Interface,
                                     inner: seq<Interface>, k: nat)
    requires LaidOut(d, size, 136, 24, os, tail) && k < |inner|
    ensures var es := OuterEffects(d, size, outer, inner);
      && |es| == |inner|
      && es[k] == Send(inner[k].index, None, d[24..40],
                       d[40..64] + EncodeOptions(Readdressed(os, 2, inner[k].link)) + tail)
    ensures InnerEffects(d, size, inner[k], outer) ==
            [Send(outer.index, Some(d[8..24]), d[24..40],
                  d[40..64] + EncodeOptions(Readdressed(os, 2, outer.link)) + tail),
             AddRoute(d[8..24], 128, inner[k].index)]
  {
    PacketIsRead(d, size, 136, 24, os, tail);
    OneOut(d, size, outer, inner, OuterOptions(NeighborAdvertisement).value, k);
    RewriteReaddresses(d, size, 136, 24, os, tail, 2, inner[k].link);
    PayloadParts(d, Rewrite(d, size, 2, inner[k].link), size, 136, 24, Readdressed(os, 2, inner[k].link), tail);
    RewriteReaddresses(d, size, 136, 24, os, tail, 2, outer.link);
    PayloadParts(d, Rewrite(d, size, 2, outer.link), size, 136, 24, Readdressed(os, 2, outer.link), tail);
  }
}
