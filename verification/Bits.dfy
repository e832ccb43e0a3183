/** C's bitwise operators on unsigned words, defined bit by bit, and what they
    compute when one operand is a contiguous netmask. */
module Bits {
  import opened Words

  function And(x: nat, y: nat): (r: nat)
    ensures r <= x && r <= y
  {
    if x == 0 || y == 0 then 0
    else (if x % 2 == 1 && y % 2 == 1 then 1 else 0) + 2 * And(x / 2, y / 2)
  }

  function Or(x: nat, y: nat): (r: nat)
    ensures x <= r && y <= r
  {
    if x == 0 then y
    else if y == 0 then x
    else (if x % 2 == 1 || y % 2 == 1 then 1 else 0) + 2 * Or(x / 2, y / 2)
  }

  /** `~x` on a 32-bit word. */
  function Not(x: U32): U32 {
    TWO_32 - 1 - x
  }

  function Pow2(n: nat): (p: nat)
    ensures p >= 1
  {
    if n == 0 then 1 else 2 * Pow2(n - 1)
  }

  /** A netmask of `32 - hostBits` ones followed by `hostBits` zeros. */
  ghost predicate Contiguous(mask: U32, hostBits: nat) {
    hostBits <= 32 && mask == TWO_32 - Pow2(hostBits)
  }

  lemma {:induction false} OrBound(x: nat, y: nat, n: nat)
    requires x < Pow2(n) && y < Pow2(n)
    ensures Or(x, y) < Pow2(n)
  {
    if x != 0 && y != 0 {
      OrBound(x / 2, y / 2, n - 1);
    }
  }

  function LowBits(x: nat, n: nat): nat {
    if n == 0 then 0 else x % 2 + 2 * LowBits(x / 2, n - 1)
  }

  lemma {:induction false} LowBitsIsMod(x: nat, n: nat)
    ensures LowBits(x, n) == x % Pow2(n)
  {
    if n == 0 {
      assert x % 1 == 0;
    } else {
      LowBitsIsMod(x / 2, n - 1);
      ModTwice(x, Pow2(n - 1));
    }
  }

  lemma {:induction false} AndIsLowBits(x: nat, n: nat)
    ensures And(x, Pow2(n) - 1) == LowBits(x, n)
  {
    if n > 0 {
      var m := Pow2(n) - 1;
      assert m % 2 == 1 && m / 2 == Pow2(n - 1) - 1;
      AndUnfold(x, m);
      AndIsLowBits(x / 2, n - 1);
    }
  }

  lemma AndLowBits(x: nat, n: nat)
    ensures And(x, Pow2(n) - 1) == x % Pow2(n)
  {
    AndIsLowBits(x, n);
    LowBitsIsMod(x, n);
  }

  lemma ModTwice(x: nat, p: nat)
    requires p >= 1
    ensures x % (2 * p) == x % 2 + 2 * (x / 2 % p)
  {
    var q, r := x / 2 / p, x / 2 % p;
    assert x / 2 == q * p + r;
    assert x == q * (2 * p) + (x % 2 + 2 * r);
    DivModUnique(x, 2 * p, q, x % 2 + 2 * r);
  }

  lemma DivModUnique(x: nat, m: nat, q: int, r: nat)
    requires r < m && x == q * m + r
    ensures x % m == r && x / m == q
  {
    var q', r' := x / m, x % m;
    if q > q' {
      AtLeastOnce(q - q', m);
    } else if q < q' {
      AtLeastOnce(q' - q, m);
    }
  }

  lemma AtLeastOnce(d: int, m: nat)
    requires d >= 1
    ensures d * m >= m
  {
    assert d * m == (d - 1) * m + m;
  }

  /** Splitting a word by a bit pattern and its complement loses nothing. */
  lemma {:induction false} AndSplit(x: nat, y: nat, n: nat)
    requires x < Pow2(n) && y < Pow2(n)
    ensures And(x, y) + And(x, Pow2(n) - 1 - y) == x
  {
    if n > 0 {
      var z := Pow2(n) - 1 - y;
      var p := Pow2(n - 1);
      AndSplit(x / 2, y / 2, n - 1);
      assert z / 2 == p - 1 - y / 2;
      assert z % 2 == 1 - y % 2;
      AndUnfold(x, y);
      AndUnfold(x, z);
    }
  }

  lemma AndUnfold(x: nat, y: nat)
    ensures And(x, y) == (if x % 2 == 1 && y % 2 == 1 then 1 else 0) + 2 * And(x / 2, y / 2)
  {
  }

  /** x | ~y sets every bit that y clears: the bits of x under y, plus all of ~y. */
  lemma {:induction false} OrComplement(x: nat, y: nat, n: nat)
    requires x < Pow2(n) && y < Pow2(n)
    ensures Or(x, Pow2(n) - 1 - y) == And(x, y) + (Pow2(n) - 1 - y)
  {
    if n > 0 {
      var z := Pow2(n) - 1 - y;
      var p := Pow2(n - 1);
      OrComplement(x / 2, y / 2, n - 1);
      assert z / 2 == p - 1 - y / 2;
      assert z % 2 == 1 - y % 2;
      AndUnfold(x, y);
      OrUnfold(x, z);
    }
  }

  lemma OrUnfold(x: nat, y: nat)
    ensures Or(x, y) == (if x % 2 == 1 || y % 2 == 1 then 1 else 0) + 2 * Or(x / 2, y / 2)
  {
    if x == 0 {
    } else if y == 0 {
    }
  }

  // ---------- the same on 32-bit words ----------

  lemma OrBound32(x: U32, y: U32)
    ensures Or(x, y) < TWO_32
  {
    Pow2Is32();
    OrBound(x, y, 32);
  }

  lemma AndSplit32(x: U32, y: U32)
    ensures And(x, y) + And(x, Not(y)) == x
  {
    Pow2Is32();
    AndSplit(x, y, 32);
  }

  lemma OrComplement32(x: U32, y: U32)
    ensures Or(x, Not(y)) == And(x, y) + Not(y)
  {
    Pow2Is32();
    OrComplement(x, y, 32);
  }

  lemma Pow2Is32()
    ensures Pow2(32) == TWO_32
  {
    assert Pow2(8) == 0x100;
    assert Pow2(16) == 0x1_0000;
    assert Pow2(24) == 0x100_0000;
  }
}
