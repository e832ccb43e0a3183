/** Neighbor discovery packets: classification, the option walk, and the in-place rewriting of link
    addresses. */
module NdPacket {
  import opened Words

  /** Capacity of the receive buffer. */
  const CAPACITY: nat := 8192
  const IP6_SIZE: nat := 40
  const ICMP6_SIZE: nat := 8
  const IPPROTO_ICMPV6: Byte := 58

  const ND_ROUTER_SOLICIT: Byte := 133
  const ND_ROUTER_ADVERT: Byte := 134
  const ND_NEIGHBOR_SOLICIT: Byte := 135
  const ND_NEIGHBOR_ADVERT: Byte := 136
  const ND_OPT_SOURCE_LINKADDR: Byte := 1
  const ND_OPT_TARGET_LINKADDR: Byte := 2

  datatype Type = NeighborSolicitation | NeighborAdvertisement | RouterSolicitation | RouterAdvertisement | Other

  type Buffer = s: seq<Byte> | |s| == CAPACITY witness Zeros(CAPACITY)
  type Size = n: nat | n <= CAPACITY

  // ---------- the constructor ----------

  function TypeOf(icmpType: Byte): Type {
    if icmpType == ND_ROUTER_SOLICIT then RouterSolicitation
    else if icmpType == ND_ROUTER_ADVERT then RouterAdvertisement
    else if icmpType == ND_NEIGHBOR_SOLICIT then NeighborSolicitation
    else if icmpType == ND_NEIGHBOR_ADVERT then NeighborAdvertisement
    else Other
  }

  function HeaderSize(t: Type): nat {
    match t
    case RouterSolicitation => 8
    case RouterAdvertisement => 16
    case _ => 24
  }

  predicate IsNd(d: Buffer, size: Size) {
    && size >= IP6_SIZE + ICMP6_SIZE
    && d[0] / 0x10 == 6 && d[6] == IPPROTO_ICMPV6
    && d[IP6_SIZE + 1] == 0
    && TypeOf(d[IP6_SIZE]) != Other
    && size >= IP6_SIZE + HeaderSize(TypeOf(d[IP6_SIZE]))
  }

  function Classify(d: Buffer, size: Size): Type {
    if IsNd(d, size) then TypeOf(d[IP6_SIZE]) else Other
  }

  /** Where an option can start: every header and every option is a multiple of eight bytes long. */
  type Slot = at: nat | IP6_SIZE <= at < CAPACITY && at % 8 == 0 witness 40

  /** Length in bytes an option claims for itself. */
  function OptLen(d: Buffer, at: Slot): nat {
    8 * d[at + 1] as int
  }

  function FirstOpt(d: Buffer, size: Size): Option<Slot> {
    var at: Slot := IP6_SIZE + HeaderSize(Classify(d, size));
    if !Classify(d, size).Other? && at + 2 < size && at + OptLen(d, at) <= size then Some(at) else None
  }

  function NextOpt(d: Buffer, size: Size, at: Slot): (r: Option<Slot>)
    ensures r.Some? ==> at <= r.value < size && r.value + OptLen(d, r.value) <= size
  {
    if at >= size then None
    else
      var next := at + OptLen(d, at);
      if next >= size then None
      else if next + OptLen(d, next) > size then None
      else Some(next)
  }

  // ---------- the walk ----------

  /** The option the loop is at after n steps. */
  function Nth(d: Buffer, size: Size, n: nat): Option<Slot> {
    if n == 0 then FirstOpt(d, size)
    else if Nth(d, size, n - 1).None? then None
    else NextOpt(d, size, Nth(d, size, n - 1).value)
  }

  /** The options from `at` on, up to and including the first of length zero, if there is one. */
  function WalkFrom(d: Buffer, size: Size, at: Slot): (ps: seq<Slot>)
    ensures |ps| > 0 && ps[0] == at
    decreases CAPACITY - at
  {
    var next := NextOpt(d, size, at);
    if next.None? || next.value == at then [at] else [at] + WalkFrom(d, size, next.value)
  }

  function Walk(d: Buffer, size: Size): seq<Slot> {
    var first := FirstOpt(d, size);
    if first.None? then [] else WalkFrom(d, size, first.value)
  }

  ghost predicate NoZeroLength(d: Buffer, ps: seq<Slot>) {
    forall k :: 0 <= k < |ps| ==> OptLen(d, ps[k]) > 0
  }

  lemma {:induction false} WalkIsNth(d: Buffer, size: Size, at: Slot, n: nat, k: nat, m: nat)
    requires Nth(d, size, n) == Some(at) && k < |WalkFrom(d, size, at)| && m == n + k
    ensures Nth(d, size, m) == Some(WalkFrom(d, size, at)[k])
    decreases k
  {
    if k > 0 {
      var next := NextOpt(d, size, at);
      assert Nth(d, size, n + 1) == next;
      WalkIsNth(d, size, next.value, n + 1, k - 1, m);
    }
  }

  /** The walk stops at its last option: there is no next one, or the option has length zero. */
  lemma {:induction false} WalkStops(d: Buffer, size: Size, at: Slot)
    ensures var ps := WalkFrom(d, size, at);
      var last := ps[|ps| - 1];
      NextOpt(d, size, last) == None || (OptLen(d, last) == 0 && NextOpt(d, size, last) == Some(last))
    decreases CAPACITY - at
  {
    var next := NextOpt(d, size, at);
    if next.Some? && next.value != at {
      WalkStops(d, size, next.value);
    }
  }

  /** Before its last option the walk meets none of length zero. */
  lemma {:induction false} OnlyLastCanBeZero(d: Buffer, size: Size, at: Slot, k: nat)
    requires k + 1 < |WalkFrom(d, size, at)|
    ensures OptLen(d, WalkFrom(d, size, at)[k]) > 0
    decreases k
  {
    if k > 0 {
      OnlyLastCanBeZero(d, size, NextOpt(d, size, at).value, k - 1);
    }
  }

  lemma {:induction false} Stuck(d: Buffer, size: Size, n: nat, m: nat)
    requires Nth(d, size, n).Some? && NextOpt(d, size, Nth(d, size, n).value) == Nth(d, size, n)
    ensures Nth(d, size, n + m) == Nth(d, size, n)
  {
    if m > 0 {
      Stuck(d, size, n, m - 1);
    }
  }

  lemma {:induction false} Ended(d: Buffer, size: Size, n: nat, m: nat)
    requires Nth(d, size, n) == None
    ensures Nth(d, size, n + m) == None
  {
    if m > 0 {
      Ended(d, size, n, m - 1);
    }
  }

  /** The loop visits the options of Walk, in order. */
  lemma LoopFollowsWalk(d: Buffer, size: Size, k: nat)
    requires k < |Walk(d, size)|
    ensures Nth(d, size, k) == Some(Walk(d, size)[k])
  {
    WalkIsNth(d, size, FirstOpt(d, size).value, 0, k, k);
  }

  ghost predicate LoopEnds(d: Buffer, size: Size) {
    exists n: nat :: Nth(d, size, n) == None
  }

  lemma EndsBy(d: Buffer, size: Size, n: nat)
    requires Nth(d, size, n) == None
    ensures LoopEnds(d, size)
  {
  }

  /** The option loop ends exactly when no option it walks over has length zero; it then ends right
      after the last option of the walk. */
  lemma LoopEndsIffNoZeroLength(d: Buffer, size: Size)
    ensures LoopEnds(d, size) <==> NoZeroLength(d, Walk(d, size))
    ensures NoZeroLength(d, Walk(d, size)) ==> Nth(d, size, |Walk(d, size)|) == None
  {
    var ps := Walk(d, size);
    if ps == [] {
      EndsBy(d, size, 0);
    } else {
      var first, n := FirstOpt(d, size).value, |ps| - 1;
      LoopFollowsWalk(d, size, n);
      WalkStops(d, size, first);
      if NextOpt(d, size, ps[n]) == None {
        assert Nth(d, size, n + 1) == None;
        NoNextNotZero(d, size, first);
        forall k | 0 <= k < |ps| ensures OptLen(d, ps[k]) > 0 {
          if k < n {
            OnlyLastCanBeZero(d, size, first, k);
          }
        }
        EndsBy(d, size, n + 1);
      } else {
        assert OptLen(d, ps[n]) == 0;
        assert !NoZeroLength(d, ps);
        forall m: nat ensures Nth(d, size, m) != None {
          if m < n {
            LoopFollowsWalk(d, size, m);
          } else {
            Stuck(d, size, n, m - n);
          }
        }
      }
    }
  }

  /** A router advertisement of 64 bytes whose one option claims length zero. */
  function ZeroLengthAdvertisement(): Buffer {
    seq(CAPACITY, i => if i == 0 then 0x60 else if i == 6 then IPPROTO_ICMPV6
                       else if i == IP6_SIZE then ND_ROUTER_ADVERT
                       else if i == IP6_SIZE + 16 then ND_OPT_SOURCE_LINKADDR else 0)
  }

  /** The option loop never ends on it. */
  lemma ZeroLengthHangs()
    ensures Classify(ZeroLengthAdvertisement(), 64) == RouterAdvertisement
    ensures !LoopEnds(ZeroLengthAdvertisement(), 64)
  {
    var d, at: Slot := ZeroLengthAdvertisement(), IP6_SIZE + 16;
    assert d[0] == 0x60 && d[6] == IPPROTO_ICMPV6 && d[IP6_SIZE] == ND_ROUTER_ADVERT && d[IP6_SIZE + 1] == 0;
    assert FirstOpt(d, 64) == Some(at) && OptLen(d, at) == 0;
    assert Walk(d, 64)[0] == at;
    LoopEndsIffNoZeroLength(d, 64);
  }

  /** An option that starts inside the packet and has length zero is its own successor. */
  lemma {:induction false} NoNextNotZero(d: Buffer, size: Size, at: Slot)
    requires at < size
    ensures var ps := WalkFrom(d, size, at);
      NextOpt(d, size, ps[|ps| - 1]) == None ==> OptLen(d, ps[|ps| - 1]) > 0
    decreases CAPACITY - at
  {
    var next := NextOpt(d, size, at);
    if next.Some? && next.value != at {
      NoNextNotZero(d, size, next.value);
    }
  }

  /** What the option loop needs to end. */
  ghost predicate Walkable(d: Buffer, size: Size) {
    NoZeroLength(d, Walk(d, size))
  }

  lemma StepAlong(d: Buffer, size: Size, at: Slot)
    requires NoZeroLength(d, WalkFrom(d, size, at))
    ensures var next := NextOpt(d, size, at);
      && (next.Some? ==> next.value > at && WalkFrom(d, size, at) == [at] + WalkFrom(d, size, next.value)
                         && NoZeroLength(d, WalkFrom(d, size, next.value)))
      && (next.None? ==> WalkFrom(d, size, at) == [at])
  {
    var next := NextOpt(d, size, at);
    var ps := WalkFrom(d, size, at);
    assert OptLen(d, ps[0]) > 0;
    if next.Some? {
      var rest := WalkFrom(d, size, next.value);
      forall k | 0 <= k < |rest| ensures OptLen(d, rest[k]) > 0 {
        assert rest[k] == ps[k + 1];
      }
    }
  }

  lemma {:induction false} WalkAdjacent(d: Buffer, size: Size, at: Slot, k: nat)
    requires k < |WalkFrom(d, size, at)| && at < size && at + OptLen(d, at) <= size
    ensures var ps := WalkFrom(d, size, at);
      && ps[k] + OptLen(d, ps[k]) <= size
      && (k + 1 < |ps| ==> ps[k + 1] == ps[k] + OptLen(d, ps[k]))
    decreases k
  {
    if k > 0 {
      WalkAdjacent(d, size, NextOpt(d, size, at).value, k - 1);
    }
  }

  /** The walk is the maximal run of options: each starts where the one before ends and fits the
      packet, and after the last the packet ends or the next option does not fit it. */
  lemma WalkIsMaximal(d: Buffer, size: Size, at: Slot)
    requires at < size && at + OptLen(d, at) <= size
    requires NoZeroLength(d, WalkFrom(d, size, at))
    ensures var ps := WalkFrom(d, size, at);
      && (forall k :: 0 <= k < |ps| ==> ps[k] + 8 <= ps[k] + OptLen(d, ps[k]) <= size)
      && (forall k :: 0 <= k < |ps| - 1 ==> ps[k + 1] == ps[k] + OptLen(d, ps[k]))
      && var end := ps[|ps| - 1] + OptLen(d, ps[|ps| - 1]);
         end == size || (end + 1 < CAPACITY && end + 8 * (d[end + 1] as int) > size)
  {
    var ps := WalkFrom(d, size, at);
    forall k | 0 <= k < |ps|
      ensures ps[k] + 8 <= ps[k] + OptLen(d, ps[k]) <= size
      ensures k + 1 < |ps| ==> ps[k + 1] == ps[k] + OptLen(d, ps[k])
    {
      WalkAdjacent(d, size, at, k);
      assert OptLen(d, ps[k]) > 0;
    }
    WalkStops(d, size, at);
    NoNext(d, size, ps[|ps| - 1]);
  }

  lemma NoNext(d: Buffer, size: Size, last: Slot)
    requires 0 < OptLen(d, last) && last + OptLen(d, last) <= size && NextOpt(d, size, last) == None
    ensures var end := last + OptLen(d, last);
      end == size || (end + 1 < CAPACITY && end + 8 * (d[end + 1] as int) > size)
  {
  }

  // ---------- the rewriting ----------

  type LinkAddress = s: seq<Byte> | |s| == 6 witness [0, 0, 0, 0, 0, 0]

  /** memcpy of a link address behind the header of one option. */
  function Patch(d: Buffer, at: Slot, link: LinkAddress): Buffer {
    d[..at + 2] + link + d[at + 8..]
  }

  function PatchIf(d: Buffer, at: Slot, kind: Byte, link: LinkAddress): Buffer {
    if d[at] == kind then Patch(d, at, link) else d
  }

  function RewriteAt(d: Buffer, ps: seq<Slot>, kind: Byte, link: LinkAddress): Buffer
    decreases |ps|
  {
    if ps == [] then d else RewriteAt(PatchIf(d, ps[0], kind, link), ps[1..], kind, link)
  }

  /** rewriteLinkAddressOption over the options of a packet. */
  function Rewrite(d: Buffer, size: Size, kind: Byte, link: LinkAddress): Buffer {
    RewriteAt(d, Walk(d, size), kind, link)
  }

  /** The byte at x belongs to the address field of an option of this type at `at`. */
  predicate InField(d: Buffer, at: Slot, kind: Byte, x: nat) {
    at + 2 <= x < at + 8 && d[at] == kind
  }

  predicate InSomeField(d: Buffer, ps: seq<Slot>, kind: Byte, x: nat) {
    exists k :: 0 <= k < |ps| && InField(d, ps[k], kind, x)
  }

  /** The byte of a link address that belongs at x: an address field begins two bytes into its slot. */
  function LinkByte(link: LinkAddress, x: nat): Byte {
    if x % 8 < 2 then 0 else link[x % 8 - 2]
  }

  /** Types and lengths lie outside every address field. */
  lemma PatchKeepsFraming(d: Buffer, at: Slot, kind: Byte, link: LinkAddress, q: Slot)
    ensures PatchIf(d, at, kind, link)[q] == d[q] && PatchIf(d, at, kind, link)[q + 1] == d[q + 1]
  {
    assert q < at || q == at || q >= at + 8;
  }

  lemma PatchByte(d: Buffer, at: Slot, kind: Byte, link: LinkAddress, x: nat)
    requires x < CAPACITY
    ensures PatchIf(d, at, kind, link)[x] == if InField(d, at, kind, x) then LinkByte(link, x) else d[x]
  {
  }

  /** Rewriting byte by byte: an address field of the requested type holds the link address
      afterwards, and every other byte is as before. */
  lemma {:induction false} RewriteByte(d: Buffer, ps: seq<Slot>, kind: Byte, link: LinkAddress, x: nat)
    requires x < CAPACITY
    ensures RewriteAt(d, ps, kind, link)[x] ==
            if InSomeField(d, ps, kind, x) then LinkByte(link, x) else d[x]
    decreases |ps|
  {
    if ps != [] {
      var d' := PatchIf(d, ps[0], kind, link);
      PatchByte(d, ps[0], kind, link, x);
      RewriteByte(d', ps[1..], kind, link, x);
      FieldsAfterPatch(d, ps, kind, link, x);
    }
  }

  lemma FieldsAfterPatch(d: Buffer, ps: seq<Slot>, kind: Byte, link: LinkAddress, x: nat)
    requires ps != []
    ensures var d' := PatchIf(d, ps[0], kind, link);
      InSomeField(d, ps, kind, x) <==> InField(d, ps[0], kind, x) || InSomeField(d', ps[1..], kind, x)
  {
    var d' := PatchIf(d, ps[0], kind, link);
    forall k | 0 <= k < |ps| ensures d'[ps[k]] == d[ps[k]] {
      PatchKeepsFraming(d, ps[0], kind, link, ps[k]);
    }
    if InSomeField(d, ps, kind, x) {
      var k :| 0 <= k < |ps| && InField(d, ps[k], kind, x);
      if k > 0 {
        assert InField(d', ps[1..][k - 1], kind, x);
      }
    }
    if InSomeField(d', ps[1..], kind, x) {
      var k :| 0 <= k < |ps[1..]| && InField(d', ps[1..][k], kind, x);
      assert InField(d, ps[k + 1], kind, x);
    }
  }

  /** The bytes that decide what a packet is and how its options are framed. */
  predicate SameFraming(d: Buffer, d': Buffer) {
    forall x: nat :: x < CAPACITY && (x < IP6_SIZE + 2 || x % 8 < 2) ==> d'[x] == d[x]
  }

  lemma {:induction false} SameWalkFrom(d: Buffer, d': Buffer, size: Size, at: Slot)
    requires SameFraming(d, d')
    ensures WalkFrom(d', size, at) == WalkFrom(d, size, at)
    decreases CAPACITY - at
  {
    assert NextOpt(d', size, at) == NextOpt(d, size, at);
    var next := NextOpt(d, size, at);
    if next.Some? && next.value != at {
      SameWalkFrom(d, d', size, next.value);
    }
  }

  lemma SameHead(d: Buffer, d': Buffer, size: Size)
    requires SameFraming(d, d')
    ensures Classify(d', size) == Classify(d, size) && FirstOpt(d', size) == FirstOpt(d, size)
  {
    assert d'[0] == d[0] && d'[6] == d[6] && d'[IP6_SIZE] == d[IP6_SIZE] && d'[IP6_SIZE + 1] == d[IP6_SIZE + 1];
    assert Classify(d', size) == Classify(d, size);
    var at: Slot := IP6_SIZE + HeaderSize(Classify(d, size));
    assert d'[at + 1] == d[at + 1];
  }

  lemma SameLengths(d: Buffer, d': Buffer, ps: seq<Slot>)
    requires SameFraming(d, d')
    ensures NoZeroLength(d, ps) ==> NoZeroLength(d', ps)
  {
    if NoZeroLength(d, ps) {
      forall k | 0 <= k < |ps| ensures OptLen(d', ps[k]) > 0 {
        assert d'[ps[k] + 1] == d[ps[k] + 1] && OptLen(d, ps[k]) > 0;
      }
    }
  }

  lemma SameWalk(d: Buffer, d': Buffer, size: Size)
    requires SameFraming(d, d')
    ensures Classify(d', size) == Classify(d, size) && Walk(d', size) == Walk(d, size)
    ensures NoZeroLength(d, Walk(d, size)) ==> NoZeroLength(d', Walk(d', size))
  {
    SameHead(d, d', size);
    if FirstOpt(d, size).Some? {
      SameWalkFrom(d, d', size, FirstOpt(d, size).value);
    }
    SameLengths(d, d', Walk(d, size));
  }

  /** Types and lengths are in no address field. */
  lemma FramingInNoField(d: Buffer, ps: seq<Slot>, kind: Byte, x: nat)
    requires x < IP6_SIZE + 2 || x % 8 < 2
    ensures !InSomeField(d, ps, kind, x)
  {
    forall k | 0 <= k < |ps| ensures !InField(d, ps[k], kind, x) {
      OutsideField(ps[k], x);
    }
  }

  lemma OutsideField(at: Slot, x: nat)
    requires x < IP6_SIZE + 2 || x % 8 < 2
    ensures !(at + 2 <= x < at + 8)
  {
  }

  /** Rewriting never disturbs the framing: same type, same options, same lengths. */
  lemma RewriteKeepsFraming(d: Buffer, size: Size, kind: Byte, link: LinkAddress)
    ensures SameFraming(d, Rewrite(d, size, kind, link))
  {
    var ps, d' := Walk(d, size), Rewrite(d, size, kind, link);
    forall x: nat | x < CAPACITY && (x < IP6_SIZE + 2 || x % 8 < 2) ensures d'[x] == d[x] {
      RewriteByte(d, ps, kind, link, x);
      FramingInNoField(d, ps, kind, x);
    }
  }

  lemma SameFields(d: Buffer, d': Buffer, ps: seq<Slot>, kind: Byte, x: nat)
    requires SameFraming(d, d')
    ensures InSomeField(d', ps, kind, x) <==> InSomeField(d, ps, kind, x)
  {
    assert forall k :: 0 <= k < |ps| ==> (InField(d', ps[k], kind, x) <==> InField(d, ps[k], kind, x));
  }

  /** Rewriting a packet that frames its options as d does: the fields of d decide. */
  lemma RewriteSameFields(d: Buffer, d': Buffer, size: Size, kind: Byte, link: LinkAddress, x: nat)
    requires SameFraming(d, d') && x < CAPACITY
    ensures Rewrite(d', size, kind, link)[x] ==
            if InSomeField(d, Walk(d, size), kind, x) then LinkByte(link, x) else d'[x]
  {
    SameWalk(d, d', size);
    RewriteByte(d', Walk(d, size), kind, link, x);
    SameFields(d, d', Walk(d, size), kind, x);
  }

  /** A later rewrite overwrites an earlier one completely; in particular rewriting is idempotent. */
  lemma RewriteOverwrites(d: Buffer, size: Size, kind: Byte, link1: LinkAddress, link2: LinkAddress)
    ensures Rewrite(Rewrite(d, size, kind, link1), size, kind, link2) == Rewrite(d, size, kind, link2)
  {
    var d' := Rewrite(d, size, kind, link1);
    RewriteKeepsFraming(d, size, kind, link1);
    forall x: nat | x < CAPACITY ensures Rewrite(d', size, kind, link2)[x] == Rewrite(d, size, kind, link2)[x] {
      RewriteSameFields(d, d, size, kind, link1, x);
      RewriteSameFields(d, d', size, kind, link2, x);
      RewriteSameFields(d, d, size, kind, link2, x);
    }
  }

  lemma ByteOfField(at: Slot, link: LinkAddress, k: nat)
    requires k < 6
    ensures LinkByte(link, at as nat + 2 + k) == link[k]
  {
  }

  /** Every option of the requested type that the loop visits carries the link address afterwards. */
  lemma RewriteReaches(d: Buffer, size: Size, kind: Byte, link: LinkAddress, k: nat)
    requires k < |Walk(d, size)| && d[Walk(d, size)[k]] == kind
    ensures var at := Walk(d, size)[k]; Rewrite(d, size, kind, link)[at + 2..at + 8] == link
  {
    var ps := Walk(d, size);
    var at: nat, d' := ps[k], Rewrite(d, size, kind, link);
    forall x: nat | x < 6 ensures d'[at + 2 + x] == link[x] {
      ReachesByte(d, ps, kind, link, k, x);
    }
  }

  lemma ReachesByte(d: Buffer, ps: seq<Slot>, kind: Byte, link: LinkAddress, k: nat, x: nat)
    requires k < |ps| && d[ps[k]] == kind && x < 6
    ensures RewriteAt(d, ps, kind, link)[ps[k] as nat + 2 + x] == link[x]
  {
    var y: nat := ps[k] as nat + 2 + x;
    RewriteByte(d, ps, kind, link, y);
    ByteOfField(ps[k], link, x);
    assert InField(d, ps[k], kind, y);
  }

  // ---------- the objects ----------

  class Message {
    const mData: array<Byte>
    var mSize: nat

    ghost predicate Valid()
      reads this
    {
      mData.Length == CAPACITY && mSize <= CAPACITY
    }

    constructor ()
      ensures Valid() && fresh(mData)
    {
      mData := new Byte[CAPACITY](_ => 0);
      mSize := 0;
    }
  }

  /** A packet is a view on a message; it never copies the data. */
  class Packet {
    const mMessage: Message
    const mType: Type
    const mFirstOpt: Option<Slot>

    ghost predicate Valid()
      reads this, mMessage, mMessage.mData
    {
      && mMessage.Valid()
      && mType == Classify(mMessage.mData[..], mMessage.mSize)
      && mFirstOpt == FirstOpt(mMessage.mData[..], mMessage.mSize)
    }

    constructor (message: Message)
      requires message.Valid()
      ensures mMessage == message && Valid()
    {
      mMessage := message;
      mType := Other;
      mFirstOpt := None;
      if message.mSize >= IP6_SIZE + ICMP6_SIZE {
        var version := message.mData[0] / 0x10;
        if version == 6 && message.mData[6] == IPPROTO_ICMPV6 && message.mData[IP6_SIZE + 1] == 0 {
          var size := message.mSize - IP6_SIZE;
          var t := TypeOf(message.mData[IP6_SIZE]);
          if t != Other && size >= HeaderSize(t) {
            mType := t;
            var options := IP6_SIZE + HeaderSize(t);
            if options + 2 < message.mSize && options + 8 * (message.mData[options + 1] as int) <= message.mSize {
              mFirstOpt := Some(options);
            }
          }
        }
      }
    }

    method NextOption(current: Slot) returns (r: Option<Slot>)
      requires Valid()
      ensures r == if mFirstOpt.Some? && current >= mFirstOpt.value
                   then NextOpt(mMessage.mData[..], mMessage.mSize, current) else None
    {
      if mFirstOpt.None? || current < mFirstOpt.value || current >= mMessage.mSize {
        return None;
      }
      var next := current + 8 * (mMessage.mData[current + 1] as int);
      if next >= mMessage.mSize {
        return None;
      }
      if next + 8 * (mMessage.mData[next + 1] as int) > mMessage.mSize {
        return None;
      }
      return Some(next);
    }
  }
}
