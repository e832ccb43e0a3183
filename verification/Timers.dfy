/** Timers on the 64-bit millisecond clock. Each use of the clock is an explicit sample. */
module Timers {
  import opened Words

  function ExpiresAt(now: U64, seconds: U64): U64 {
    (now + seconds * 1000) % TWO_64
  }

  function RemainingAt(expires: U64, now: U64): U64 {
    if now > expires then 0 else expires - now
  }

  class Timer {
    var mExpires: U64

    /** A new timer is already expired. */
    constructor ()
      ensures mExpires == 0
    {
      mExpires := 0;
    }

    method ExpireSeconds(seconds: U64, now: U64)
      modifies this
      ensures mExpires == ExpiresAt(now, seconds)
    {
      mExpires := (now + seconds * 1000) % TWO_64;
    }

    predicate Expired(now: U64)
      reads this
    {
      now >= mExpires
    }

    /** Zero exactly when the timer has expired. */
    method RemainingMillis(now: U64) returns (r: U64)
      ensures r == RemainingAt(mExpires, now)
      ensures r == 0 <==> Expired(now)
    {
      var current := now;
      if current > mExpires {
        return 0;
      }
      return mExpires - current;
    }
  }

  // ---------- the defaults for T1 and T2 ----------

  function DefaultT1(leaseTime: U32): U32 {
    leaseTime / 2
  }

  /** 32-bit arithmetic: the product wraps. */
  function DefaultT2(leaseTime: U32): U32 {
    leaseTime * 7 % TWO_32 / 8
  }

  const LONGEST_SAFE_LEASE: U32 := 613566756

  lemma SevenTimes(leaseTime: U32) returns (c: nat)
    ensures 0 <= c <= 6 && leaseTime * 7 == c * TWO_32 + leaseTime * 7 % TWO_32
    ensures c == 0 <==> leaseTime <= LONGEST_SAFE_LEASE
  {
    c := leaseTime * 7 / TWO_32;
  }

  /** The defaults are ordered as section 4.4.5 of RFC 2131 wants exactly for the leases whose
      seven-fold fits a word; for every longer one T2 comes more than two years before T1. */
  lemma DefaultsOrderedIff(leaseTime: U32)
    ensures DefaultT1(leaseTime) <= DefaultT2(leaseTime) <= leaseTime <==> leaseTime <= LONGEST_SAFE_LEASE
    ensures leaseTime > LONGEST_SAFE_LEASE ==> DefaultT2(leaseTime) + 76_695_844 <= DefaultT1(leaseTime)
  {
    var c := SevenTimes(leaseTime);
    var w := leaseTime * 7 % TWO_32;
    assert w == 7 * leaseTime - c * TWO_32;
  }

  /** A clock that does not come near its own wrap-around within any timer set by this program. */
  const CLOCK_LIMIT: U64 := 0x4000_0000_0000_0000

  /** The deadlines set from two successive clock samples are ordered under the same condition. */
  lemma DeadlinesOrderedIff(leaseTime: U32, now1: U64, now2: U64)
    requires now1 <= now2 < now1 + 76_695_844_000 && now2 < CLOCK_LIMIT
    ensures ExpiresAt(now1, DefaultT1(leaseTime)) <= ExpiresAt(now2, DefaultT2(leaseTime)) <==>
            leaseTime <= LONGEST_SAFE_LEASE
  {
    DefaultsOrderedIff(leaseTime);
    NoWrap(now1, DefaultT1(leaseTime));
    NoWrap(now2, DefaultT2(leaseTime));
  }

  lemma NoWrap(now: U64, seconds: U32)
    requires now < CLOCK_LIMIT
    ensures ExpiresAt(now, seconds) == now + seconds * 1000
  {
  }
}
