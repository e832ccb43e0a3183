/** Neighbor discovery packets as RFC 4861 lays them out, told apart from how this program reads them: an
    encoder for options, and what the walk and the rewriting make of any packet it builds. */
module NdOptions {
  import opened Words
  import opened NdPacket

  /** An option of `words` times eight bytes, two of which are its type and its length. */
  datatype RawOption = RawOption(kind: Byte, words: Byte, body: seq<Byte>)

  type NdOption = o: RawOption | o.words >= 1 && |o.body| == 8 * o.words - 2
    witness RawOption(0, 1, [0, 0, 0, 0, 0, 0])

  function EncodeOption(o: NdOption): (s: seq<Byte>)
    ensures |s| == 8 * o.words
  {
    [o.kind, o.words] + o.body
  }

  function WordCount(os: seq<NdOption>): nat
    decreases |os|
  {
    if os == [] then 0 else os[0].words as int + WordCount(os[1..])
  }

  function EncodeOptions(os: seq<NdOption>): (s: seq<Byte>)
    ensures |s| == 8 * WordCount(os)
    decreases |os|
  {
    if os == [] then [] else EncodeOption(os[0]) + EncodeOptions(os[1..])
  }

  /** What may follow the last option: nothing, or an option cut off by the end of the packet. */
  predicate Cut(tail: seq<Byte>) {
    tail == [] || (|tail| >= 2 && 8 * (tail[1] as int) > |tail|)
  }

  /** From `at` to the end of the packet lie these options and this tail. */
  ghost predicate Hold(d: Buffer, size: Size, at: nat, os: seq<NdOption>, tail: seq<Byte>) {
    && at + |EncodeOptions(os)| + |tail| == size && Cut(tail)
    && d[at..size] == EncodeOptions(os) + tail
  }

  /** Length of the fixed part of the four messages, from the ICMPv6 header on: router solicitation 133,
      router advertisement 134, neighbor solicitation 135 and neighbor advertisement 136. */
  predicate FixedPart(icmpType: Byte, length: nat) {
    (icmpType, length) in {(133, 8), (134, 16), (135, 24), (136, 24)}
  }

  /** An IPv6 header for ICMPv6, the fixed part of a message, its options, and nothing else that counts. */
  ghost predicate LaidOut(d: Buffer, size: Size, icmpType: Byte, length: nat, os: seq<NdOption>, tail: seq<Byte>) {
    && FixedPart(icmpType, length)
    && d[0] / 0x10 == 6 && d[6] == 58 && d[40] == icmpType && d[41] == 0
    && Hold(d, size, 40 + length, os, tail)
  }

  /** Where options that start at `at` lie. */
  function Places(at: nat, os: seq<NdOption>): (ps: seq<Slot>)
    requires at >= 40 && at % 8 == 0 && at + 8 * WordCount(os) <= CAPACITY
    ensures |ps| == |os| && (os != [] ==> ps[0] == at)
    decreases |os|
  {
    if os == [] then [] else [at as Slot] + Places(at + 8 * os[0].words, os[1..])
  }

  lemma HoldHead(d: Buffer, size: Size, at: nat, os: seq<NdOption>, tail: seq<Byte>)
    requires Hold(d, size, at, os, tail) && os != []
    ensures var next := at + 8 * os[0].words;
      && next <= size && d[at] == os[0].kind && d[at + 1] == os[0].words && d[at..next] == EncodeOption(os[0])
      && Hold(d, size, next, os[1..], tail)
  {
    var first, rest := EncodeOption(os[0]), EncodeOptions(os[1..]);
    assert EncodeOptions(os) == first + rest;
    ThreeSlices(d, at, first, rest, tail);
    assert d[at] == d[at..at + |first|][0] && d[at + 1] == d[at..at + |first|][1];
    assert d[at + |first|..size] == d[at + |first|..at + |first| + |rest|] + d[at + |first| + |rest|..size];
  }

  lemma HoldTail(d: Buffer, size: Size, at: nat, tail: seq<Byte>)
    requires Hold(d, size, at, [], tail) && tail != []
    ensures at + 1 < size && d[at + 1] == tail[1] && at + 8 * (d[at + 1] as int) > size
  {
    assert d[at..size] == tail;
    assert d[at + 1] == d[at..size][1];
  }

  lemma NextOfOptions(d: Buffer, size: Size, at: Slot, os: seq<NdOption>, tail: seq<Byte>)
    requires Hold(d, size, at, os, tail) && os != []
    ensures var next := at + 8 * os[0].words;
      NextOpt(d, size, at) == if |os| == 1 then None else Some(next)
  {
    HoldHead(d, size, at, os, tail);
    var next := at + 8 * (os[0].words as int);
    if os[1..] == [] {
      if tail != [] {
        HoldTail(d, size, next, tail);
      }
    } else {
      HoldHead(d, size, next, os[1..], tail);
    }
  }

  lemma {:induction false} WalkOfOptions(d: Buffer, size: Size, at: Slot, os: seq<NdOption>, tail: seq<Byte>)
    requires Hold(d, size, at, os, tail) && os != []
    ensures at + 8 * WordCount(os) <= CAPACITY && WalkFrom(d, size, at) == Places(at, os)
    decreases |os|
  {
    HoldHead(d, size, at, os, tail);
    NextOfOptions(d, size, at, os, tail);
    if |os| > 1 {
      WalkOfOptions(d, size, at + 8 * os[0].words, os[1..], tail);
    }
  }

  lemma {:induction false} PlacesPositive(d: Buffer, size: Size, at: nat, os: seq<NdOption>, tail: seq<Byte>)
    requires Hold(d, size, at, os, tail) && at >= 40 && at % 8 == 0
    ensures NoZeroLength(d, Places(at, os))
    decreases |os|
  {
    if os != [] {
      HoldHead(d, size, at, os, tail);
      PlacesPositive(d, size, at + 8 * os[0].words, os[1..], tail);
    }
  }

  lemma TypeRead(d: Buffer, size: Size, icmpType: Byte, length: nat, os: seq<NdOption>, tail: seq<Byte>)
    requires LaidOut(d, size, icmpType, length, os, tail)
    ensures Classify(d, size) != Other && IP6_SIZE + HeaderSize(Classify(d, size)) == 40 + length
    ensures icmpType == 133 ==> Classify(d, size) == RouterSolicitation
    ensures icmpType == 134 ==> Classify(d, size) == RouterAdvertisement
    ensures icmpType == 135 ==> Classify(d, size) == NeighborSolicitation
    ensures icmpType == 136 ==> Classify(d, size) == NeighborAdvertisement
  {
  }

  /** A packet that is laid out is read as what it is: it gets its type, and the walk visits exactly its
      options, in order and all of them. */
  lemma PacketIsRead(d: Buffer, size: Size, icmpType: Byte, length: nat, os: seq<NdOption>, tail: seq<Byte>)
    requires LaidOut(d, size, icmpType, length, os, tail)
    ensures icmpType == 133 ==> Classify(d, size) == RouterSolicitation
    ensures icmpType == 134 ==> Classify(d, size) == RouterAdvertisement
    ensures icmpType == 135 ==> Classify(d, size) == NeighborSolicitation
    ensures icmpType == 136 ==> Classify(d, size) == NeighborAdvertisement
    ensures Walk(d, size) == Places(40 + length, os) && Walkable(d, size)
  {
    TypeRead(d, size, icmpType, length, os, tail);
    PlacesPositive(d, size, 40 + length, os, tail);
    if os != [] {
      var at: Slot := 40 + length;
      HoldHead(d, size, at, os, tail);
      assert FirstOpt(d, size) == Some(at);
      WalkOfOptions(d, size, at, os, tail);
    } else {
      if tail != [] {
        HoldTail(d, size, 40 + length, tail);
      }
      assert FirstOpt(d, size) == None;
    }
  }

  /** The four types, exactly: every other packet is left alone. */
  lemma TypeIff(d: Buffer, size: Size)
    ensures var icmp := size >= 48 && d[0] / 0x10 == 6 && d[6] == 58 && d[41] == 0;
      && (Classify(d, size) == RouterSolicitation <==> icmp && d[40] == 133)
      && (Classify(d, size) == RouterAdvertisement <==> icmp && d[40] == 134 && size >= 56)
      && (Classify(d, size) == NeighborSolicitation <==> icmp && d[40] == 135 && size >= 64)
      && (Classify(d, size) == NeighborAdvertisement <==> icmp && d[40] == 136 && size >= 64)
  {
  }

  // ---------- the rewriting, on options ----------

  /** An option with the link address in place of its first six bytes, if it has this type. */
  function Readdress(o: NdOption, kind: Byte, link: LinkAddress): NdOption {
    if o.kind == kind then RawOption(kind, o.words, link + o.body[6..]) else o
  }

  function Readdressed(os: seq<NdOption>, kind: Byte, link: LinkAddress): seq<NdOption>
    decreases |os|
  {
    if os == [] then [] else [Readdress(os[0], kind, link)] + Readdressed(os[1..], kind, link)
  }

  lemma PatchOne(d: Buffer, at: Slot, o: NdOption, kind: Byte, link: LinkAddress)
    requires at + 8 * o.words <= CAPACITY && d[at..at + 8 * o.words] == EncodeOption(o)
    ensures var d' := PatchIf(d, at, kind, link);
      && d'[at..at + 8 * o.words] == EncodeOption(Readdress(o, kind, link))
      && forall x: nat :: x < CAPACITY && !(at <= x < at + 8) ==> d'[x] == d[x]
  {
    var s := d[at..at + 8 * o.words];
    assert d[at] == s[0] == o.kind;
    if o.kind == kind {
      var d' := Patch(d, at, link);
      forall x | 0 <= x < |s| ensures d'[at..at + 8 * o.words][x] == ([kind, o.words] + (link + o.body[6..]))[x] {
        assert x >= 8 ==> d'[at + x] == d[at + x] == s[x] == o.body[x - 2];
        assert x == 1 ==> d'[at + x] == d[at + x] == s[x] == o.words;
      }
    }
  }

  lemma JoinHold(d: Buffer, size: Size, at: nat, next: nat, o: NdOption, rest: seq<NdOption>, tail: seq<Byte>)
    requires next == at + 8 * o.words && next <= CAPACITY && d[at..next] == EncodeOption(o)
    requires Hold(d, size, next, rest, tail)
    ensures Hold(d, size, at, [o] + rest, tail)
  {
    assert ([o] + rest)[1..] == rest;
    assert d[at..size] == d[at..next] + d[next..size];
  }

  lemma {:induction false} RewriteOptions(d: Buffer, size: Size, at: nat, os: seq<NdOption>, tail: seq<Byte>,
                                          kind: Byte, link: LinkAddress)
    requires Hold(d, size, at, os, tail) && at >= 40 && at % 8 == 0
    ensures var d' := RewriteAt(d, Places(at, os), kind, link);
      && Hold(d', size, at, Readdressed(os, kind, link), tail)
      && forall x: nat :: x < CAPACITY && !(at <= x < size) ==> d'[x] == d[x]
    decreases |os|
  {
    if os != [] {
      var slot: Slot, next := at, at + 8 * (os[0].words as int);
      HoldHead(d, size, at, os, tail);
      PatchOne(d, slot, os[0], kind, link);
      var d1 := PatchIf(d, slot, kind, link);
      SameSlice(d1, d, next, size);
      RewriteOptions(d1, size, next, os[1..], tail, kind, link);
      var d' := RewriteAt(d1, Places(next, os[1..]), kind, link);
      SameSlice(d', d1, at, next);
      JoinHold(d', size, at, next, Readdress(os[0], kind, link), Readdressed(os[1..], kind, link), tail);
    }
  }

  /** Rewriting a packet that is laid out gives the packet laid out with the addresses replaced: the same
      headers, the same options in order with only those of the requested type changed, the same tail. */
  lemma RewriteReaddresses(d: Buffer, size: Size, icmpType: Byte, length: nat, os: seq<NdOption>, tail: seq<Byte>,
                           kind: Byte, link: LinkAddress)
    requires LaidOut(d, size, icmpType, length, os, tail)
    ensures var d' := Rewrite(d, size, kind, link);
      && LaidOut(d', size, icmpType, length, Readdressed(os, kind, link), tail)
      && d'[..40 + length] == d[..40 + length]
  {
    PacketIsRead(d, size, icmpType, length, os, tail);
    RewriteOptions(d, size, 40 + length, os, tail, kind, link);
  }
}
