/** What a change of the interface settings does to the lease table. The table keeps its leases and
    its offset, while the search starts over from the network address of the new settings. */
module Reconfiguration {
  import opened Words
  import opened LeaseAllocator

  // ---------- while the network address never falls ----------

  predicate Configures(c: Lookup, i: U32) {
    c.key.interfaceIndex == i && c.cfg.address.Some? && c.cfg.netmask.Some?
  }

  function BaseOf(c: Lookup, i: U32, floor: U32): U32 {
    if Configures(c, i) then Base(c.cfg.address.value, c.cfg.netmask.value) else floor
  }

  /** From one lookup on this interface to the next the network address never falls. */
  predicate Ascending(calls: seq<Lookup>, i: U32, floor: U32)
    decreases |calls|
  {
    calls != [] ==> floor <= BaseOf(calls[0], i, floor) && Ascending(calls[1..], i, BaseOf(calls[0], i, floor))
  }

  /** Every lease lies below the address the search goes on from. */
  ghost predicate Below(t: Table, i: U32, floor: U32) {
    forall mac: Mac :: LeaseOf(t, Lease(i, mac)) < floor + FirstOffset(OffsetOf(t, i))
  }

  /** A search that starts behind the broadcast address, or wraps around below the network, finds nothing. */
  lemma SearchBeyond(offset: U32, address: U32, mask: U32)
    requires Base(address, mask) + FirstOffset(offset) > Top(address, mask)
    ensures var start := SearchStart(offset, address, mask);
      && Scan(start, FirstOffset(offset), address, mask) == (start, FirstOffset(offset))
      && !AddressInRange(start, address, mask)
  {
    var base, first := Base(address, mask), FirstOffset(offset);
    var start: int := SearchStart(offset, address, mask);
    assert start == base + first || start == base + first - TWO_32;
  }

  /** One allocation on a table of whatever history. */
  lemma AllocateAnywhere(t: Table, key: Lease, address: U32, mask: U32)
    ensures var (t', a) := Allocate(t, key, address, mask);
      var base, i := Base(address, mask), key.interfaceIndex;
      && FirstOffset(OffsetOf(t, i)) <= FirstOffset(OffsetOf(t', i))
      && (a.Some? ==> base + FirstOffset(OffsetOf(t, i)) <= a.value < base + FirstOffset(OffsetOf(t', i))
                      && Assignable(a.value, address, mask))
  {
    var base, first := Base(address, mask), FirstOffset(OffsetOf(t, key.interfaceIndex));
    if base + first <= Top(address, mask) {
      AllocateMoves(t, key, address, mask);
    } else {
      AllocateTable(t, key, address, mask);
      SearchBeyond(OffsetOf(t, key.interfaceIndex), address, mask);
    }
  }

  lemma StepAscending(t: Table, c: Lookup, i: U32, floor: U32)
    requires NoDoubleLease(t, i) && Below(t, i, floor) && floor <= BaseOf(c, i, floor)
    ensures var t' := GetOfferAddress(t, c.key, c.cfg).0; NoDoubleLease(t', i) && Below(t', i, BaseOf(c, i, floor))
  {
    var t' := GetOfferAddress(t, c.key, c.cfg).0;
    LookupFrame(t, c.key, c.cfg);
    if Configures(c, i) && t' != t {
      var address, mask := c.cfg.address.value, c.cfg.netmask.value;
      AllocateAnywhere(t, c.key, address, mask);
      AllocateLeases(t, c.key, address, mask);
    } else {
      assert forall mac: Mac :: LeaseOf(t', Lease(i, mac)) == LeaseOf(t, Lease(i, mac));
    }
  }

  /** An allocation touches one lease. */
  lemma AllocateLeases(t: Table, key: Lease, address: U32, mask: U32)
    ensures var (t', a) := Allocate(t, key, address, mask);
      && LeaseOf(t', key) == (if a.Some? then a.value else 0)
      && forall l: Lease :: l != key ==> LeaseOf(t', l) == LeaseOf(t, l)
  {
  }

  /** No address is leased twice as long as the network address never falls, whatever else changes. */
  lemma {:induction false} AscendingKeepsUnique(t: Table, calls: seq<Lookup>, i: U32, floor: U32)
    requires NoDoubleLease(t, i) && Below(t, i, floor) && Ascending(calls, i, floor)
    ensures NoDoubleLease(Lookups(t, calls), i)
    decreases |calls|
  {
    if calls != [] {
      StepAscending(t, calls[0], i, floor);
      AscendingKeepsUnique(GetOfferAddress(t, calls[0].key, calls[0].cfg).0, calls[1..], i,
                           BaseOf(calls[0], i, floor));
    }
  }

  // ---------- one change of settings ----------

  /** However the server is used, first under the old settings and then under the new ones, no
      address is leased twice. */
  ghost predicate ChangeIsSafe(i: U32, a1: U32, m1: U32, a2: U32, m2: U32) {
    forall before: seq<Lookup>, after: seq<Lookup> ::
      Fixed(before, i, a1, m1) && Fixed(after, i, a2, m2) ==>
        NoDoubleLease(Lookups(Lookups(EMPTY_TABLE, before), after), i)
  }

  /** Some address can be assigned under both settings. */
  ghost predicate Overlap(a1: U32, m1: U32, a2: U32, m2: U32) {
    exists h: U32 :: Assignable(h, a1, m1) && Assignable(h, a2, m2)
  }

  lemma {:induction false} FixedIsAscending(calls: seq<Lookup>, i: U32, address: U32, mask: U32, floor: U32)
    requires Fixed(calls, i, address, mask) && floor <= Base(address, mask)
    ensures Ascending(calls, i, floor)
    decreases |calls|
  {
    if calls != [] {
      assert calls[0] in calls;
      assert forall c :: c in calls[1..] ==> c in calls;
      FixedIsAscending(calls[1..], i, address, mask, BaseOf(calls[0], i, floor));
    }
  }

  lemma {:induction false} LookupsConcat(t: Table, a: seq<Lookup>, b: seq<Lookup>)
    ensures Lookups(t, a + b) == Lookups(Lookups(t, a), b)
    decreases |a|
  {
    if a == [] {
      assert a + b == b;
    } else {
      assert (a + b)[1..] == a[1..] + b;
      LookupsConcat(GetOfferAddress(t, a[0].key, a[0].cfg).0, a[1..], b);
    }
  }

  lemma {:induction false} AscendingConcat(a: seq<Lookup>, b: seq<Lookup>, i: U32, address: U32, mask: U32, floor: U32)
    requires Fixed(a, i, address, mask) && floor <= Base(address, mask)
    requires forall f: U32 :: f <= Base(address, mask) ==> Ascending(b, i, f)
    ensures Ascending(a + b, i, floor)
    decreases |a|
  {
    if a == [] {
      assert a + b == b;
    } else {
      assert (a + b)[1..] == a[1..] + b && a[0] in a;
      assert forall c :: c in a[1..] ==> c in a;
      AscendingConcat(a[1..], b, i, address, mask, BaseOf(a[0], i, floor));
    }
  }

  lemma SafeIfRising(i: U32, a1: U32, m1: U32, a2: U32, m2: U32)
    requires Base(a1, m1) <= Base(a2, m2)
    ensures ChangeIsSafe(i, a1, m1, a2, m2)
  {
    forall before: seq<Lookup>, after: seq<Lookup> | Fixed(before, i, a1, m1) && Fixed(after, i, a2, m2)
      ensures NoDoubleLease(Lookups(Lookups(EMPTY_TABLE, before), after), i)
    {
      forall f: U32 | f <= Base(a1, m1) ensures Ascending(after, i, f) {
        FixedIsAscending(after, i, a2, m2, f);
      }
      AscendingConcat(before, after, i, a1, m1, 0);
      AscendingKeepsUnique(EMPTY_TABLE, before + after, i, 0);
      LookupsConcat(EMPTY_TABLE, before, after);
    }
  }

  /** Under the new settings: every lease is one of the old ones, or assignable now and already
      passed by the search. */
  ghost predicate OldOrNew(was: Table, t: Table, i: U32, address: U32, mask: U32) {
    forall mac: Mac :: var h := LeaseOf(t, Lease(i, mac));
      h == LeaseOf(was, Lease(i, mac)) || (Assignable(h, address, mask) && h < Frontier(t, i, address, mask))
  }

  lemma StepApart(was: Table, t: Table, c: Lookup, i: U32, address: U32, mask: U32)
    requires NoDoubleLease(t, i) && OldOrNew(was, t, i, address, mask)
    requires c.key.interfaceIndex == i ==> Reports(c.cfg, address, mask)
    requires forall mac: Mac :: !Assignable(LeaseOf(was, Lease(i, mac)), address, mask)
    ensures var t' := GetOfferAddress(t, c.key, c.cfg).0;
      NoDoubleLease(t', i) && OldOrNew(was, t', i, address, mask)
  {
    var t' := GetOfferAddress(t, c.key, c.cfg).0;
    LookupFrame(t, c.key, c.cfg);
    if c.key.interfaceIndex == i && t' != t {
      AllocateAnywhere(t, c.key, address, mask);
      AllocateLeases(t, c.key, address, mask);
      assert LeaseOf(was, Lease(i, c.key.mac)) == LeaseOf(t, c.key) == 0
             || Assignable(LeaseOf(t, Lease(i, c.key.mac)), address, mask);
    } else {
      assert forall mac: Mac :: LeaseOf(t', Lease(i, mac)) == LeaseOf(t, Lease(i, mac));
    }
  }

  lemma {:induction false} RunApart(was: Table, t: Table, calls: seq<Lookup>, i: U32, address: U32, mask: U32)
    requires NoDoubleLease(t, i) && OldOrNew(was, t, i, address, mask) && Fixed(calls, i, address, mask)
    requires forall mac: Mac :: !Assignable(LeaseOf(was, Lease(i, mac)), address, mask)
    ensures NoDoubleLease(Lookups(t, calls), i)
    decreases |calls|
  {
    if calls != [] {
      assert calls[0] in calls;
      StepApart(was, t, calls[0], i, address, mask);
      RunApart(was, GetOfferAddress(t, calls[0].key, calls[0].cfg).0, calls[1..], i, address, mask);
    }
  }

  lemma SafeIfApart(i: U32, a1: U32, m1: U32, a2: U32, m2: U32)
    requires !Overlap(a1, m1, a2, m2)
    ensures ChangeIsSafe(i, a1, m1, a2, m2)
  {
    forall before: seq<Lookup>, after: seq<Lookup> | Fixed(before, i, a1, m1) && Fixed(after, i, a2, m2)
      ensures NoDoubleLease(Lookups(Lookups(EMPTY_TABLE, before), after), i)
    {
      var t := Lookups(EMPTY_TABLE, before);
      assert Exact(EMPTY_TABLE, i, a1, m1);
      RunKeepsExact(EMPTY_TABLE, before, i, a1, m1);
      forall mac: Mac ensures !Assignable(LeaseOf(t, Lease(i, mac)), a2, m2) {
        assert LeaseOf(t, Lease(i, mac)) != 0 ==> Assignable(LeaseOf(t, Lease(i, mac)), a1, m1);
      }
      RunApart(t, t, after, i, a2, m2);
    }
  }

  // ---------- how a change goes wrong ----------

  /** As many different clients as there are addresses, for each tag. */
  function Client(tag: Byte, n: U32): Mac {
    [tag, 0] + Store32(Big, n)
  }

  lemma ClientsDiffer(tag: Byte, n: U32, k: U32)
    requires Client(tag, n) == Client(tag, k)
    ensures n == k
  {
    assert Client(tag, n)[2..] == Store32(Big, n) && Client(tag, k)[2..] == Store32(Big, k);
    StoreLoad32(Big, n);
    StoreLoad32(Big, k);
  }

  ghost predicate Unused(t: Table, i: U32, tag: Byte, from: nat) {
    forall n: U32 :: from <= n ==> LeaseOf(t, Lease(i, Client(tag, n))) == 0
  }

  ghost predicate KeepsOthers(t: Table, t': Table, tag: Byte) {
    forall l: Lease :: l.mac[0] != tag ==> LeaseOf(t', l) == LeaseOf(t, l)
  }

  lemma OneMore(t: Table, i: U32, address: U32, mask: U32, h: U32, tag: Byte) returns (c: Lookup)
    requires InBounds(OffsetOf(t, i), address, mask) && Frontier(t, i, address, mask) <= h
    requires Assignable(h, address, mask) && Unused(t, i, tag, Frontier(t, i, address, mask))
    ensures c == Lookup(Lease(i, c.key.mac), IfConfig(Some(address), Some(mask))) && c.key.mac[0] == tag
    ensures var t' := GetOfferAddress(t, c.key, c.cfg).0;
      && InBounds(OffsetOf(t', i), address, mask)
      && Frontier(t, i, address, mask) < Frontier(t', i, address, mask) == LeaseOf(t', c.key) + 1 <= h + 1
      && Unused(t', i, tag, Frontier(t', i, address, mask))
      && KeepsOthers(t, t', tag)
  {
    var n: U32 := Frontier(t, i, address, mask);
    c := Lookup(Lease(i, Client(tag, n)), IfConfig(Some(address), Some(mask)));
    AllocateMoves(t, c.key, address, mask);
    AllocateSkips(t, c.key, address, mask, h);
    AllocateLeases(t, c.key, address, mask);
    var t' := GetOfferAddress(t, c.key, c.cfg).0;
    forall k: U32 | Frontier(t', i, address, mask) <= k ensures LeaseOf(t', Lease(i, Client(tag, k))) == 0 {
      if Client(tag, k) == Client(tag, n) {
        ClientsDiffer(tag, n, k);
      }
    }
  }

  /** New clients of one tag reach any assignable address that the search has not passed, and the
      search stops right behind it. */
  lemma {:induction false} ReachHost(t: Table, i: U32, address: U32, mask: U32, h: U32, tag: Byte)
    returns (calls: seq<Lookup>, mac: Mac)
    requires InBounds(OffsetOf(t, i), address, mask) && Frontier(t, i, address, mask) <= h
    requires Assignable(h, address, mask) && Unused(t, i, tag, Frontier(t, i, address, mask))
    ensures Fixed(calls, i, address, mask) && mac[0] == tag
    ensures var t' := Lookups(t, calls);
      && LeaseOf(t', Lease(i, mac)) == h && Frontier(t', i, address, mask) == h + 1
      && KeepsOthers(t, t', tag)
    decreases h - Frontier(t, i, address, mask)
  {
    var c := OneMore(t, i, address, mask, h, tag);
    var t' := GetOfferAddress(t, c.key, c.cfg).0;
    if LeaseOf(t', c.key) == h {
      calls, mac := [c], c.key.mac;
      assert Lookups(t', calls[1..]) == t';
    } else {
      var rest;
      rest, mac := ReachHost(t', i, address, mask, h, tag);
      calls := [c] + rest;
      assert calls[1..] == rest;
    }
  }

  lemma UnsafeIfFalling(i: U32, a1: U32, m1: U32, a2: U32, m2: U32)
    requires Base(a2, m2) < Base(a1, m1) && Overlap(a1, m1, a2, m2)
    ensures !ChangeIsSafe(i, a1, m1, a2, m2)
  {
    var h: U32 :| Assignable(h, a1, m1) && Assignable(h, a2, m2);
    var before, mac1 := ReachHost(EMPTY_TABLE, i, a1, m1, h, 0);
    var t := Lookups(EMPTY_TABLE, before);
    var after, mac2 := ReachHost(t, i, a2, m2, h, 1);
    var t' := Lookups(t, after);
    assert LeaseOf(t', Lease(i, mac1)) == h == LeaseOf(t', Lease(i, mac2));
  }

  /** A change of settings can make the server lease one address twice exactly when it lowers the
      network address while some address can be assigned under both settings. */
  lemma SafeIffNotFalling(i: U32, a1: U32, m1: U32, a2: U32, m2: U32)
    ensures ChangeIsSafe(i, a1, m1, a2, m2) <==> Base(a1, m1) <= Base(a2, m2) || !Overlap(a1, m1, a2, m2)
  {
    if Base(a1, m1) <= Base(a2, m2) {
      SafeIfRising(i, a1, m1, a2, m2);
    } else if Overlap(a1, m1, a2, m2) {
      UnsafeIfFalling(i, a1, m1, a2, m2);
    } else {
      SafeIfApart(i, a1, m1, a2, m2);
    }
  }
}
