/** The lease table of the DHCP server and its address search. Addresses are the
    numbers their bytes spell in network order. */
module LeaseAllocator {
  import opened Words
  import opened Bits

  datatype Lease = Lease(interfaceIndex: U32, mac: Mac)

  /** The two maps of the server; a missing entry reads as zero, as operator[] creates it. */
  datatype Table = Table(leases: map<Lease, U32>, offsets: map<U32, U32>)

  /** What the two ioctl calls of one allocation report: None is a failed call. */
  datatype IfConfig = IfConfig(address: Option<U32>, netmask: Option<U32>)

  datatype Offer = Offer(address: U32, netmask: U32, gateway: U32)

  const EMPTY_TABLE := Table(map[], map[])

  function LeaseOf(t: Table, key: Lease): U32 {
    if key in t.leases then t.leases[key] else 0
  }

  function OffsetOf(t: Table, interfaceIndex: U32): U32 {
    if interfaceIndex in t.offsets then t.offsets[interfaceIndex] else 0
  }

  function Base(address: U32, mask: U32): U32 {
    And(address, mask)
  }

  function Top(address: U32, mask: U32): (top: U32)
    ensures Base(address, mask) <= address <= top
    ensures Not(mask) <= top
  {
    OrBound32(address, Not(mask));
    Or(address, Not(mask))
  }

  predicate IsValidHost(address: U32, interfaceAddress: U32, netmask: U32) {
    var hostPart := And(address, Not(netmask));
    var isNetworkAddress := hostPart == 0;
    var isBroadcastAddress := hostPart == Not(netmask);
    var isInterfaceAddress := address == interfaceAddress;
    !isNetworkAddress && !isBroadcastAddress && !isInterfaceAddress
  }

  predicate AddressInRange(address: U32, interfaceAddress: U32, netmask: U32) {
    Base(interfaceAddress, netmask) < address < Top(interfaceAddress, netmask)
  }

  /** Where the search loop stops: the address and the offset that goes with it. */
  function Scan(next: U32, offset: U32, address: U32, mask: U32): (U32, U32)
    decreases TWO_32 - next
  {
    if !IsValidHost(next, address, mask) && AddressInRange(next, address, mask)
    then Scan(next + 1, (offset + 1) % TWO_32, address, mask)
    else (next, offset)
  }

  function FirstOffset(offset: U32): U32 {
    if offset == 0 then 1 else offset
  }

  /** Where the search for a client without a lease starts. */
  function SearchStart(offset: U32, address: U32, mask: U32): U32 {
    (Base(address, mask) + FirstOffset(offset)) % TWO_32
  }

  /** A lookup for a client without a lease. */
  function Allocate(t: Table, key: Lease, address: U32, mask: U32): (Table, Option<U32>) {
    var first := FirstOffset(OffsetOf(t, key.interfaceIndex));
    var (next, offset) := Scan(SearchStart(OffsetOf(t, key.interfaceIndex), address, mask), first, address, mask);
    if AddressInRange(next, address, mask) then
      (Table(t.leases[key := next], t.offsets[key.interfaceIndex := (offset + 1) % TWO_32]), Some(next))
    else
      (Table(t.leases[key := 0], t.offsets[key.interfaceIndex := offset]), None)
  }

  function GetOfferAddress(t: Table, key: Lease, cfg: IfConfig): (Table, Option<Offer>) {
    if cfg.address.None? || cfg.netmask.None? then (t, None)
    else
      var address, mask := cfg.address.value, cfg.netmask.value;
      if LeaseOf(t, key) != 0 then (t, Some(Offer(LeaseOf(t, key), mask, address)))
      else
        var (t', a) := Allocate(t, key, address, mask);
        if a.Some? then (t', Some(Offer(a.value, mask, address))) else (t', None)
  }

  // ---------- the exact representation invariant ----------

  /** The addresses below this one have been searched. */
  function Frontier(t: Table, interfaceIndex: U32, address: U32, mask: U32): nat {
    Base(address, mask) + FirstOffset(OffsetOf(t, interfaceIndex))
  }

  /** The frontier never passes the broadcast address (an interface without hosts stays at offset 1). */
  ghost predicate InBounds(offset: U32, address: U32, mask: U32) {
    Base(address, mask) + FirstOffset(offset) <= Top(address, mask) || offset <= 1
  }

  /** An address the server may hand out on this interface. */
  predicate Assignable(h: int, address: U32, mask: U32) {
    Base(address, mask) < h < Top(address, mask) && IsValidHost(h, address, mask)
  }

  ghost predicate Holds(t: Table, interfaceIndex: U32, h: U32) {
    exists mac: Mac :: LeaseOf(t, Lease(interfaceIndex, mac)) == h
  }

  ghost predicate NoDoubleLease(t: Table, interfaceIndex: U32) {
    forall m: Mac, n: Mac ::
      LeaseOf(t, Lease(interfaceIndex, m)) == LeaseOf(t, Lease(interfaceIndex, n)) != 0 ==> m == n
  }

  /** Leased on an interface is exactly what is assignable below the frontier, each address once. */
  ghost predicate Exact(t: Table, interfaceIndex: U32, address: U32, mask: U32) {
    var next := Frontier(t, interfaceIndex, address, mask);
    && InBounds(OffsetOf(t, interfaceIndex), address, mask)
    && (forall mac: Mac :: var h := LeaseOf(t, Lease(interfaceIndex, mac));
                           h != 0 ==> h < next && Assignable(h, address, mask))
    && NoDoubleLease(t, interfaceIndex)
    && (forall h: U32 :: h < next && Assignable(h, address, mask) ==> Holds(t, interfaceIndex, h))
  }

  lemma {:induction false} ScanStops(next: U32, offset: U32, address: U32, mask: U32)
    requires Base(address, mask) < next <= Top(address, mask)
    requires offset == next - Base(address, mask)
    ensures var (n, o) := Scan(next, offset, address, mask);
      && next <= n <= Top(address, mask)
      && o == n - Base(address, mask)
      && (n < Top(address, mask) ==> IsValidHost(n, address, mask))
      && forall h :: next <= h < n ==> !Assignable(h, address, mask)
    decreases TWO_32 - next
  {
    if next < Top(address, mask) && !IsValidHost(next, address, mask) {
      assert AddressInRange(next, address, mask) && (offset + 1) % TWO_32 == offset + 1;
      assert Scan(next, offset, address, mask) == Scan(next + 1, offset + 1, address, mask);
      ScanStops(next + 1, offset + 1, address, mask);
    } else {
      assert Scan(next, offset, address, mask) == (next, offset);
    }
  }

  lemma SearchInside(offset: U32, address: U32, mask: U32)
    requires Base(address, mask) + FirstOffset(offset) <= Top(address, mask)
    ensures var first := FirstOffset(offset);
      var base, top := Base(address, mask), Top(address, mask);
      var (n, o) := Scan(SearchStart(offset, address, mask), first, address, mask);
      && base + first <= n == base + o <= top
      && (n < top ==> IsValidHost(n, address, mask))
      && forall h :: base + first <= h < n ==> !Assignable(h, address, mask)
  {
    var first := FirstOffset(offset);
    assert SearchStart(offset, address, mask) == Base(address, mask) + first;
    ScanStops(Base(address, mask) + first, first, address, mask);
  }

  lemma SearchOutside(offset: U32, address: U32, mask: U32)
    requires InBounds(offset, address, mask)
    requires Base(address, mask) + FirstOffset(offset) > Top(address, mask)
    ensures var start := SearchStart(offset, address, mask);
      Scan(start, FirstOffset(offset), address, mask) == (start, 1) && !AddressInRange(start, address, mask)
  {
    assert Base(address, mask) == Top(address, mask);
  }

  /** Either way: a search that ends in range has found the first host left, any other one has shown
      that none is left. */
  lemma SearchStep(offset: U32, address: U32, mask: U32)
    requires InBounds(offset, address, mask)
    ensures var first := FirstOffset(offset);
      var base, top := Base(address, mask), Top(address, mask);
      var (n, o) := Scan(SearchStart(offset, address, mask), first, address, mask);
      && first <= o && (AddressInRange(n, address, mask) ==> n == base + o < top && IsValidHost(n, address, mask))
      && (!AddressInRange(n, address, mask) ==> base + o <= top || o == 1)
      && (forall h :: base + first <= h < base + o ==> !Assignable(h, address, mask))
      && (!AddressInRange(n, address, mask) ==> forall h :: base + first <= h ==> !Assignable(h, address, mask))
  {
    if Base(address, mask) + FirstOffset(offset) <= Top(address, mask) {
      SearchInside(offset, address, mask);
    } else {
      SearchOutside(offset, address, mask);
    }
  }

  /** The offset a finished search leaves behind, plus one if it found an address. */
  lemma SearchEnds(offset: U32, address: U32, mask: U32)
    requires InBounds(offset, address, mask)
    ensures var first := FirstOffset(offset);
      var base := Base(address, mask);
      var (n, o) := Scan(SearchStart(offset, address, mask), first, address, mask);
      && 1 <= first <= o
      && (AddressInRange(n, address, mask) ==>
            n == base + o && Assignable(n, address, mask)
            && (o + 1) % TWO_32 == o + 1 && InBounds(o + 1, address, mask))
      && (!AddressInRange(n, address, mask) ==> InBounds(o, address, mask))
  {
    SearchStep(offset, address, mask);
  }

  lemma AllocateMoves(t: Table, key: Lease, address: U32, mask: U32)
    requires InBounds(OffsetOf(t, key.interfaceIndex), address, mask)
    ensures var (t', a) := Allocate(t, key, address, mask);
      var i := key.interfaceIndex;
      var next, next' := Frontier(t, i, address, mask), Frontier(t', i, address, mask);
      && (a.Some? ==> next <= a.value == next' - 1 && Assignable(a.value, address, mask))
      && InBounds(OffsetOf(t', key.interfaceIndex), address, mask)
      && next <= next'
  {
    SearchEnds(OffsetOf(t, key.interfaceIndex), address, mask);
    AllocateTable(t, key, address, mask);
  }

  lemma AllocateSkips(t: Table, key: Lease, address: U32, mask: U32, h: U32)
    requires InBounds(OffsetOf(t, key.interfaceIndex), address, mask)
    requires Frontier(t, key.interfaceIndex, address, mask) <= h
    ensures var (t', a) := Allocate(t, key, address, mask);
      (a.Some? && h < a.value) || a.None? ==> !Assignable(h, address, mask)
  {
    SearchStep(OffsetOf(t, key.interfaceIndex), address, mask);
    AllocateTable(t, key, address, mask);
  }

  /** One allocation: what it takes, and that it refuses only at the end of the range. */
  lemma AllocateStep(t: Table, key: Lease, address: U32, mask: U32)
    requires InBounds(OffsetOf(t, key.interfaceIndex), address, mask)
    ensures var (t', a) := Allocate(t, key, address, mask);
      var i := key.interfaceIndex;
      var next, next' := Frontier(t, i, address, mask), Frontier(t', i, address, mask);
      && (a.Some? ==> next <= a.value == next' - 1 && Assignable(a.value, address, mask))
      && InBounds(OffsetOf(t', key.interfaceIndex), address, mask)
      && next <= next'
      && (forall h: U32 :: next <= h < next' && Some(h) != a ==> !Assignable(h, address, mask))
      && (a.None? ==> forall h: U32 :: next <= h ==> !Assignable(h, address, mask))
  {
    AllocateMoves(t, key, address, mask);
    forall h: U32 | Frontier(t, key.interfaceIndex, address, mask) <= h
      ensures var a := Allocate(t, key, address, mask).1;
        (a.Some? && h < a.value) || a.None? ==> !Assignable(h, address, mask)
    {
      AllocateSkips(t, key, address, mask, h);
    }
  }

  /** Where the outcome of the search is recorded. */
  lemma AllocateTable(t: Table, key: Lease, address: U32, mask: U32)
    ensures var (t', a) := Allocate(t, key, address, mask);
      var i := key.interfaceIndex;
      var first := FirstOffset(OffsetOf(t, i));
      var (n, o) := Scan(SearchStart(OffsetOf(t, i), address, mask), first, address, mask);
      if AddressInRange(n, address, mask)
      then a == Some(n) && OffsetOf(t', i) == (o + 1) % TWO_32
      else a == None && OffsetOf(t', i) == o
  {
  }

  lemma AllocateKeepsExact(t: Table, key: Lease, address: U32, mask: U32)
    requires Exact(t, key.interfaceIndex, address, mask) && LeaseOf(t, key) == 0
    ensures Exact(Allocate(t, key, address, mask).0, key.interfaceIndex, address, mask)
  {
    AllocateStep(t, key, address, mask);
    var i := key.interfaceIndex;
    var (t', a) := Allocate(t, key, address, mask);
    assert forall mac: Mac :: mac != key.mac ==> LeaseOf(t', Lease(i, mac)) == LeaseOf(t, Lease(i, mac));
    assert Lease(i, key.mac) == key;
    forall h: U32 | h < Frontier(t', i, address, mask) && Assignable(h, address, mask)
      ensures Holds(t', i, h)
    {
      if h < Frontier(t, i, address, mask) {
        var mac: Mac :| LeaseOf(t, Lease(i, mac)) == h;
        assert LeaseOf(t', Lease(i, mac)) == h;
      } else {
        assert LeaseOf(t', Lease(i, key.mac)) == h;
      }
    }
  }

  // ---------- one lookup ----------

  /** What every lookup, whatever the ioctl calls report, leaves alone and delivers. */
  lemma LookupFrame(t: Table, key: Lease, cfg: IfConfig)
    ensures var (t', o) := GetOfferAddress(t, key, cfg);
      && (forall l: Lease :: l != key || LeaseOf(t, l) != 0 ==> LeaseOf(t', l) == LeaseOf(t, l))
      && (forall i: U32 :: i != key.interfaceIndex ==> OffsetOf(t', i) == OffsetOf(t, i))
      && (o.Some? ==> o.value.address == LeaseOf(t', key) != 0
                      && cfg == IfConfig(Some(o.value.gateway), Some(o.value.netmask)))
  {
  }

  /** The configuration of an interface is fixed, though single ioctl calls may fail. */
  predicate Reports(cfg: IfConfig, address: U32, mask: U32) {
    cfg.address in {None, Some(address)} && cfg.netmask in {None, Some(mask)}
  }

  lemma LookupKeepsExact(t: Table, key: Lease, cfg: IfConfig, interfaceIndex: U32, address: U32, mask: U32)
    requires Exact(t, interfaceIndex, address, mask)
    requires key.interfaceIndex == interfaceIndex ==> Reports(cfg, address, mask)
    ensures Exact(GetOfferAddress(t, key, cfg).0, interfaceIndex, address, mask)
  {
    var t' := GetOfferAddress(t, key, cfg).0;
    if key.interfaceIndex == interfaceIndex {
      if t' != t {
        AllocateKeepsExact(t, key, address, mask);
      }
    } else {
      LookupFrame(t, key, cfg);
      SameOnInterface(t, t', interfaceIndex, address, mask);
    }
  }

  lemma SameOnInterface(t: Table, t': Table, i: U32, address: U32, mask: U32)
    requires Exact(t, i, address, mask)
    requires OffsetOf(t', i) == OffsetOf(t, i)
    requires forall mac: Mac :: LeaseOf(t', Lease(i, mac)) == LeaseOf(t, Lease(i, mac))
    ensures Exact(t', i, address, mask)
  {
    forall h: U32 | h < Frontier(t', i, address, mask) && Assignable(h, address, mask)
      ensures Holds(t', i, h)
    {
      var mac: Mac :| LeaseOf(t, Lease(i, mac)) == h;
      assert LeaseOf(t', Lease(i, mac)) == h;
    }
  }

  // ---------- runs ----------

  datatype Lookup = Lookup(key: Lease, cfg: IfConfig)

  function Lookups(t: Table, calls: seq<Lookup>): Table
    decreases |calls|
  {
    if calls == [] then t
    else Lookups(GetOfferAddress(t, calls[0].key, calls[0].cfg).0, calls[1..])
  }

  ghost predicate Fixed(calls: seq<Lookup>, interfaceIndex: U32, address: U32, mask: U32) {
    forall c :: c in calls && c.key.interfaceIndex == interfaceIndex ==> Reports(c.cfg, address, mask)
  }

  lemma {:induction false} RunKeepsExact(t: Table, calls: seq<Lookup>, i: U32, address: U32, mask: U32)
    requires Exact(t, i, address, mask) && Fixed(calls, i, address, mask)
    ensures Exact(Lookups(t, calls), i, address, mask)
    decreases |calls|
  {
    if calls != [] {
      LookupKeepsExact(t, calls[0].key, calls[0].cfg, i, address, mask);
      RunKeepsExact(GetOfferAddress(t, calls[0].key, calls[0].cfg).0, calls[1..], i, address, mask);
    }
  }

  /** A lease once given is never changed, whatever the interface settings become. */
  lemma {:induction false} LeasesAreForever(t: Table, calls: seq<Lookup>, key: Lease)
    requires LeaseOf(t, key) != 0
    ensures LeaseOf(Lookups(t, calls), key) == LeaseOf(t, key)
    decreases |calls|
  {
    if calls != [] {
      LookupFrame(t, calls[0].key, calls[0].cfg);
      LeasesAreForever(GetOfferAddress(t, calls[0].key, calls[0].cfg).0, calls[1..], key);
    }
  }

  /** For any netmask: an address is a host exactly when it is neither the network address nor the
      broadcast address of its own network, nor the interface's. */
  lemma HostIff(h: U32, address: U32, mask: U32)
    ensures IsValidHost(h, address, mask) <==> h != And(h, mask) && h != Or(h, Not(mask)) && h != address
  {
    AndSplit32(h, mask);
    OrComplement32(h, mask);
  }

  // ---------- contiguous netmasks: the leased interval ----------

  lemma ContiguousRange(address: U32, mask: U32, k: nat)
    requires Contiguous(mask, k)
    ensures Base(address, mask) == address - address % Pow2(k)
    ensures Top(address, mask) == Base(address, mask) + Pow2(k) - 1
  {
    NetworkPart(address, mask, k);
    OrComplement32(address, mask);
  }

  lemma NetworkPart(address: U32, mask: U32, k: nat)
    requires Contiguous(mask, k)
    ensures And(address, mask) == address - address % Pow2(k)
  {
    AndSplit32(address, mask);
    AndLowBits(address, k);
  }

  lemma HostPart(h: nat, address: nat, p: nat)
    requires p >= 1 && address - address % p <= h < address - address % p + p
    ensures h % p == h - (address - address % p)
  {
    DivModUnique(h, p, address / p, h - (address - address % p));
  }

  /** Under a contiguous mask the only address in range that is no host is the interface's own. */
  lemma ContiguousHosts(h: U32, address: U32, mask: U32, k: nat)
    requires Contiguous(mask, k)
    ensures Assignable(h, address, mask) <==>
            Base(address, mask) < h < Top(address, mask) && h != address
  {
    ContiguousRange(address, mask, k);
    if Base(address, mask) < h < Top(address, mask) {
      HostPart(h, address, Pow2(k));
      assert Not(mask) == Pow2(k) - 1;
      AndLowBits(h, k);
    }
  }

  /** After any run on a fixed interface with a contiguous netmask, the leased addresses are an
      interval that starts above the network address, minus the interface's own address; each
      belongs to one client; none is the network or the broadcast address. */
  lemma LeasedInterval(calls: seq<Lookup>, i: U32, address: U32, mask: U32, k: nat)
    requires Contiguous(mask, k) && Fixed(calls, i, address, mask)
    ensures var t := Lookups(EMPTY_TABLE, calls);
      var base, top := address - address % Pow2(k), address - address % Pow2(k) + Pow2(k) - 1;
      && (forall h: U32 :: h != 0 ==>
            (Holds(t, i, h) <==> base < h < base + FirstOffset(OffsetOf(t, i)) && h != address))
      && (forall h: U32 :: h != 0 && Holds(t, i, h) ==> base < h < top)
      && NoDoubleLease(t, i)
  {
    var t := Lookups(EMPTY_TABLE, calls);
    assert Exact(EMPTY_TABLE, i, address, mask);
    RunKeepsExact(EMPTY_TABLE, calls, i, address, mask);
    ContiguousRange(address, mask, k);
    var base, top := Base(address, mask), Top(address, mask);
    forall h: U32 | h != 0
      ensures Holds(t, i, h) <==> base < h < base + FirstOffset(OffsetOf(t, i)) && h != address
      ensures Holds(t, i, h) ==> base < h < top
    {
      ContiguousHosts(h, address, mask, k);
      if Holds(t, i, h) {
        var mac: Mac :| LeaseOf(t, Lease(i, mac)) == h;
      }
    }
  }

  // ---------- exhaustion ----------

  ghost predicate AllLeased(t: Table, i: U32, address: U32, mask: U32) {
    forall h: U32 :: Assignable(h, address, mask) ==> Holds(t, i, h)
  }

  /** A new client is refused exactly when every assignable address is leased already. */
  lemma RefusedIffAllLeased(t: Table, key: Lease, address: U32, mask: U32)
    requires Exact(t, key.interfaceIndex, address, mask) && LeaseOf(t, key) == 0
    ensures GetOfferAddress(t, key, IfConfig(Some(address), Some(mask))).1 == None <==>
            AllLeased(t, key.interfaceIndex, address, mask)
  {
    var i := key.interfaceIndex;
    AllocateStep(t, key, address, mask);
    var (t', a) := Allocate(t, key, address, mask);
    if a.Some? {
      forall mac: Mac ensures LeaseOf(t, Lease(i, mac)) != a.value {}
      assert !Holds(t, i, a.value);
    }
    if a.None? {
      forall h: U32 | Assignable(h, address, mask) ensures Holds(t, i, h) {
        assert h < Frontier(t, i, address, mask);
      }
    }
  }

  /** Once one new client is refused, after any further calls every client without a lease is
      refused too, and every client with a lease is still offered that lease. */
  lemma ExhaustionIsForever(t: Table, key: Lease, calls: seq<Lookup>, later: Lease, address: U32, mask: U32)
    requires Exact(t, key.interfaceIndex, address, mask) && LeaseOf(t, key) == 0
    requires GetOfferAddress(t, key, IfConfig(Some(address), Some(mask))).1 == None
    requires Fixed(calls, key.interfaceIndex, address, mask)
    requires later.interfaceIndex == key.interfaceIndex
    ensures GetOfferAddress(Lookups(t, calls), later, IfConfig(Some(address), Some(mask))).1 ==
            if LeaseOf(t, later) == 0 then None else Some(Offer(LeaseOf(t, later), mask, address))
  {
    var i, t' := key.interfaceIndex, Lookups(t, calls);
    RefusedIffAllLeased(t, key, address, mask);
    RunKeepsExact(t, calls, i, address, mask);
    forall h: U32 | Assignable(h, address, mask) ensures Holds(t', i, h) {
      var mac: Mac :| LeaseOf(t, Lease(i, mac)) == h;
      LeasesAreForever(t, calls, Lease(i, mac));
      assert LeaseOf(t', Lease(i, mac)) == h;
    }
    if LeaseOf(t, later) != 0 {
      LeasesAreForever(t, calls, later);
    } else {
      NoLeaseWhenFull(t, calls, later, address, mask);
      RefusedIffAllLeased(t', later, address, mask);
    }
  }

  /** No client gains a lease on a full interface. */
  lemma {:induction false} NoLeaseWhenFull(t: Table, calls: seq<Lookup>, key: Lease, address: U32, mask: U32)
    requires Exact(t, key.interfaceIndex, address, mask) && AllLeased(t, key.interfaceIndex, address, mask)
    requires Fixed(calls, key.interfaceIndex, address, mask) && LeaseOf(t, key) == 0
    ensures LeaseOf(Lookups(t, calls), key) == 0
    decreases |calls|
  {
    if calls != [] {
      var i, c := key.interfaceIndex, calls[0];
      var t' := GetOfferAddress(t, c.key, c.cfg).0;
      LookupFrame(t, c.key, c.cfg);
      LookupKeepsExact(t, c.key, c.cfg, i, address, mask);
      if c.key == key && t' != t {
        RefusedIffAllLeased(t, key, address, mask);
      }
      forall h: U32 | Assignable(h, address, mask) ensures Holds(t', i, h) {
        var mac: Mac :| LeaseOf(t, Lease(i, mac)) == h;
        assert LeaseOf(t', Lease(i, mac)) == h;
      }
      NoLeaseWhenFull(t', calls[1..], key, address, mask);
    }
  }

  // ---------- how many clients fit ----------

  ghost function Holders(t: Table, i: U32): set<Lease> {
    set l | l in t.leases && l.interfaceIndex == i && t.leases[l] != 0
  }

  lemma {:induction false} BijectionCard(t: Table, holders: set<Lease>, hosts: set<int>)
    requires forall l :: l in holders ==> l in t.leases && t.leases[l] in hosts
    requires forall l, m :: l in holders && m in holders && t.leases[l] == t.leases[m] ==> l == m
    requires forall h :: h in hosts ==> exists l :: l in holders && t.leases[l] == h
    ensures |holders| == |hosts|
    decreases |holders|
  {
    if holders == {} {
      assert forall h :: h !in hosts;
    } else {
      var l :| l in holders;
      BijectionCard(t, holders - {l}, hosts - {t.leases[l]});
    }
  }

  function Interval(lo: int, hi: int): (r: set<int>)
    requires lo <= hi
    ensures forall h :: h in r <==> lo <= h < hi
    ensures |r| == hi - lo
    decreases hi - lo
  {
    if lo == hi then {} else Interval(lo, hi - 1) + {hi - 1}
  }

  /** A full interface with `k` host bits serves 2^k - 2 clients, one fewer when its own address is
      a host address, and none when k is 0. */
  lemma CapacityWhenFull(t: Table, i: U32, address: U32, mask: U32, k: nat)
    requires Contiguous(mask, k) && Exact(t, i, address, mask) && AllLeased(t, i, address, mask)
    ensures |Holders(t, i)| ==
            (if k == 0 then 0 else Pow2(k) - 2)
            - (if 0 < address % Pow2(k) < Pow2(k) - 1 then 1 else 0)
  {
    var base, top := Base(address, mask), Top(address, mask);
    ContiguousRange(address, mask, k);
    var inside := if base == top then {} else Interval(base + 1, top);
    var hosts := inside - {address};
    forall l | l in Holders(t, i) ensures t.leases[l] in hosts {
      assert LeaseOf(t, Lease(i, l.mac)) == t.leases[l];
      ContiguousHosts(t.leases[l], address, mask, k);
    }
    forall l, m | l in Holders(t, i) && m in Holders(t, i) && t.leases[l] == t.leases[m] ensures l == m {
      assert LeaseOf(t, Lease(i, l.mac)) == LeaseOf(t, Lease(i, m.mac));
    }
    forall h | h in hosts ensures exists l :: l in Holders(t, i) && t.leases[l] == h {
      ContiguousHosts(h, address, mask, k);
      var mac: Mac :| LeaseOf(t, Lease(i, mac)) == h;
      assert Lease(i, mac) in Holders(t, i);
    }
    BijectionCard(t, Holders(t, i), hosts);
    assert k > 0 ==> Pow2(k) == 2 * Pow2(k - 1);
    assert address in inside <==> 0 < address % Pow2(k) < Pow2(k) - 1;
  }
}
