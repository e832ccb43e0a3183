/** The Internet checksum of RFC 1071 as the raw socket computes it. */
module Checksum {
  import opened Words
  import Bits

  /** The 16-bit words of a buffer in host order; an odd last byte counts as its own value. */
  function WordSum(e: Endian, s: seq<Byte>): nat
    decreases |s|
  {
    if |s| == 0 then 0
    else if |s| == 1 then s[0]
    else Load16(e, s[..2]) + WordSum(e, s[2..])
  }

  /** The one's-complement value of a sum: carries folded back until sixteen bits are left. */
  function Fold(x: nat): (r: U16) {
    if x == 0 then 0 else 1 + (x - 1) % 0xFFFF
  }

  /** `x + 0xFFFF * k` folds like `x`. */
  lemma FoldShift(x: nat, k: nat)
    requires x > 0
    ensures Fold(x + 0xFFFF * k) == Fold(x)
  {
    Bits.DivModUnique(x - 1 + 0xFFFF * k, 0xFFFF, (x - 1) / 0xFFFF + k, (x - 1) % 0xFFFF);
  }

  lemma FoldStep(x: nat)
    ensures Fold(x % 0x1_0000 + x / 0x1_0000) == Fold(x)
  {
    if x > 0 {
      FoldShift(x % 0x1_0000 + x / 0x1_0000, x / 0x1_0000);
    }
  }

  lemma FoldSmall(x: nat)
    requires x < 0x1_0000
    ensures Fold(x) == x
  {
  }

  /** A sum can be continued from its folded value: the chained calls compute one checksum. */
  lemma FoldChain(a: nat, b: nat)
    ensures Fold(Fold(a) + b) == Fold(a + b)
  {
    if a > 0 {
      var k := (a - 1) / 0xFFFF;
      assert a == Fold(a) + 0xFFFF * k;
      FoldShift(Fold(a) + b, k);
    }
  }

  lemma WrapAdd(x: nat, y: nat)
    ensures (x % TWO_32 + y) % TWO_32 == (x + y) % TWO_32
  {
    var q, z := x / TWO_32, x % TWO_32 + y;
    Bits.DivModUnique(x + y, TWO_32, q + z / TWO_32, z % TWO_32);
  }

  /** The first loop of addChecksum: the words, with the 32-bit accumulator written out. */
  method AddWords(e: Endian, buffer: seq<Byte>, initial: U32) returns (checksum: U32)
    ensures checksum == (initial + WordSum(e, buffer)) % TWO_32
  {
    checksum := initial;
    var data, size := 0, |buffer|;
    while size > 1
      invariant 0 <= size && data + size == |buffer|
      invariant (checksum + WordSum(e, buffer[data..])) % TWO_32 == (initial + WordSum(e, buffer)) % TWO_32
    {
      var word: nat := Load16(e, buffer[data..data + 2]);
      assert buffer[data..][..2] == buffer[data..data + 2];
      assert buffer[data..][2..] == buffer[data + 2..];
      WrapAdd(checksum + word, WordSum(e, buffer[data + 2..]));
      checksum := (checksum + word) % TWO_32;
      data := data + 2;
      size := size - 2;
    }
    if size > 0 {
      var last: nat := buffer[data];
      checksum := (checksum + last) % TWO_32;
    }
  }

  /** addChecksum; the second loop folds the carries. Its closed form holds for every input. */
  method AddChecksum(e: Endian, buffer: seq<Byte>, initial: U32) returns (checksum: U32)
    ensures checksum == Fold((initial + WordSum(e, buffer)) % TWO_32)
  {
    checksum := AddWords(e, buffer, initial);
    ghost var total := checksum;
    var msw := checksum / 0x1_0000;
    while msw != 0
      invariant msw == checksum / 0x1_0000
      invariant Fold(checksum) == Fold(total)
      decreases checksum
    {
      FoldStep(checksum);
      checksum := checksum % 0x1_0000 + msw;
      msw := checksum / 0x1_0000;
    }
    FoldSmall(checksum);
  }

  /** finishChecksum: `~checksum & 0xFFFF`. */
  function FinishChecksum(checksum: U32): U16 {
    0xFFFF - checksum % 0x1_0000
  }

  /** When the accumulator wraps `c` times the result is still the checksum of the whole sum exactly
      when c is a multiple of 65535 and the wrapped value did not vanish: for every shorter sum,
      exactly when it never wraps. */
  lemma WrapExact(x: nat)
    ensures Fold(x % TWO_32) == Fold(x) <==>
            x / TWO_32 == 0 || (x / TWO_32 % 0xFFFF == 0 && x % TWO_32 != 0)
  {
    var c, y := x / TWO_32, x % TWO_32;
    var k, r := c / 0xFFFF, c % 0xFFFF;
    assert x == y + TWO_32 * c;
    assert TWO_32 == 0xFFFF * 0x1_0001 + 1;
    if c > 0 && y > 0 {
      // x and y + r fold alike
      FoldShift(y + r, k + 0x1_0001 * c);
      assert x == y + r + 0xFFFF * (k + 0x1_0001 * c);
      FoldDistinct(y, r);
    }
  }

  lemma FoldDistinct(y: nat, r: nat)
    requires y > 0 && r < 0xFFFF
    ensures Fold(y + r) == Fold(y) <==> r == 0
  {
    var q, s := (y - 1) / 0xFFFF, (y - 1) % 0xFFFF;
    if s + r < 0xFFFF {
      Bits.DivModUnique(y - 1 + r, 0xFFFF, q, s + r);
    } else {
      Bits.DivModUnique(y - 1 + r, 0xFFFF, q + 1, s + r - 0xFFFF);
    }
  }

  lemma {:induction false} WordSumConcat(e: Endian, a: seq<Byte>, b: seq<Byte>)
    requires |a| % 2 == 0
    ensures WordSum(e, a + b) == WordSum(e, a) + WordSum(e, b)
    decreases |a|
  {
    if a == [] {
      assert a + b == b;
    } else {
      WordSumConcat(e, a[2..], b);
      assert (a + b)[..2] == a[..2];
      assert (a + b)[2..] == a[2..] + b;
    }
  }

  lemma {:induction false} WordSumBound(e: Endian, s: seq<Byte>)
    ensures WordSum(e, s) <= 0xFFFF * ((|s| + 1) / 2)
    decreases |s|
  {
    if |s| > 1 {
      WordSumBound(e, s[2..]);
      assert (|s| + 1) / 2 == (|s[2..]| + 1) / 2 + 1;
    }
  }

  lemma FoldAtMost(x: nat)
    ensures Fold(x) <= x
  {
  }

  lemma NoWrap(x: nat)
    requires x < TWO_32
    ensures x % TWO_32 == x
  {
  }

  /** Summing an even piece and then another is summing their concatenation, as long as the
      accumulator does not wrap. */
  lemma ChainIsConcat(e: Endian, a: seq<Byte>, b: seq<Byte>, initial: U32)
    requires |a| % 2 == 0 && initial + WordSum(e, a) + WordSum(e, b) < TWO_32
    ensures Fold((Fold((initial + WordSum(e, a)) % TWO_32) + WordSum(e, b)) % TWO_32)
            == Fold((initial + WordSum(e, a + b)) % TWO_32)
  {
    WordSumConcat(e, a, b);
    FoldAtMost(initial + WordSum(e, a));
    FoldChain(initial + WordSum(e, a), WordSum(e, b));
    NoWrap(initial + WordSum(e, a));
    NoWrap(initial + WordSum(e, a) + WordSum(e, b));
    NoWrap(Fold(initial + WordSum(e, a)) + WordSum(e, b));
  }

  // ---------- byte order ----------

  function Swap16(w: U16): U16 {
    Load16(Big, Store16(Little, w))
  }

  /** The two readings of a buffer differ by the factor 256, modulo 65535. */
  lemma {:induction false} SwapSums(s: seq<Byte>) returns (k: int)
    requires |s| % 2 == 0
    ensures 0x100 * WordSum(Little, s) == WordSum(Big, s) + 0xFFFF * k
    ensures k >= 0
    ensures WordSum(Big, s) == 0 <==> WordSum(Little, s) == 0
    decreases |s|
  {
    if s == [] {
      k := 0;
    } else {
      var k' := SwapSums(s[2..]);
      k := k' + s[1];
    }
  }

  lemma SwapFold(big: nat, little: nat, k: nat)
    requires 0x100 * little == big + 0xFFFF * k && (big == 0 <==> little == 0)
    ensures Fold(big) == Swap16(Fold(little))
  {
    if little > 0 {
      FoldTimes256(little);
      FoldShift(big, k);
    }
  }

  /** Section 2(B) of RFC 1071: adding the words in the other byte order gives the same sixteen
      bits, swapped; so the checksum bytes in memory do not depend on the host. */
  lemma ByteOrderIndependent(s: seq<Byte>)
    requires |s| % 2 == 0
    ensures Fold(WordSum(Big, s)) == Swap16(Fold(WordSum(Little, s)))
    ensures Store16(Big, FinishChecksum(Fold(WordSum(Big, s)))) ==
            Store16(Little, FinishChecksum(Fold(WordSum(Little, s))))
  {
    var k := SwapSums(s);
    SwapFold(WordSum(Big, s), WordSum(Little, s), k);
    SwapBytes(Fold(WordSum(Little, s)));
  }

  lemma SwapBytes(w: U16)
    ensures Store16(Big, FinishChecksum(Swap16(w))) == Store16(Little, FinishChecksum(w))
  {
    var a, b := w / 0x100, w % 0x100;
    assert FinishChecksum(w) == 0x100 * (0xFF - a) + (0xFF - b);
    assert FinishChecksum(Swap16(w)) == 0x100 * (0xFF - b) + (0xFF - a);
  }

  /** Multiplying by 256 modulo 65535 swaps the two bytes. */
  lemma FoldTimes256(x: nat)
    requires x > 0
    ensures Fold(0x100 * x) == Swap16(Fold(x))
  {
    var f, q := Fold(x), (x - 1) / 0xFFFF;
    assert x == f + 0xFFFF * q;
    SwapIsTimes256(f);
    FoldShift(Swap16(f), f / 0x100 + 0x100 * q);
    FoldSmall(Swap16(f));
  }

  lemma SwapIsTimes256(f: U16)
    ensures 0x100 * f == Swap16(f) + 0xFFFF * (f / 0x100)
    ensures f > 0 ==> Swap16(f) > 0
  {
  }
}
