/** Machine words, their in-memory bytes, and the two byte orders. */
module Words {

  type Byte = x: int | 0 <= x < 0x100
  type U16 = x: int | 0 <= x < 0x1_0000
  type U32 = x: int | 0 <= x < 0x1_0000_0000
  type U64 = x: int | 0 <= x < 0x1_0000_0000_0000_0000

  type Mac = s: seq<Byte> | |s| == 6 witness [0, 0, 0, 0, 0, 0]

  const TWO_32: nat := 0x1_0000_0000
  const TWO_64: nat := 0x1_0000_0000_0000_0000

  datatype Option<+T> = None | Some(value: T)

  /** The byte order in which a host keeps its words in memory. */
  datatype Endian = Little | Big

  function Load16(e: Endian, s: seq<Byte>): U16
    requires |s| == 2
  {
    var a: int, b: int := s[0], s[1];
    match e
    case Little => a + 0x100 * b
    case Big => 0x100 * a + b
  }

  function Store16(e: Endian, w: U16): (s: seq<Byte>)
    ensures |s| == 2
  {
    match e
    case Little => [w % 0x100, w / 0x100]
    case Big => [w / 0x100, w % 0x100]
  }

  function Load32(e: Endian, s: seq<Byte>): U32
    requires |s| == 4
  {
    var a: int, b: int, c: int, d: int := s[0], s[1], s[2], s[3];
    match e
    case Little => a + 0x100 * b + 0x1_0000 * c + 0x100_0000 * d
    case Big => 0x100_0000 * a + 0x1_0000 * b + 0x100 * c + d
  }

  function Store32(e: Endian, w: U32): (s: seq<Byte>)
    ensures |s| == 4
  {
    match e
    case Little => [w % 0x100, w / 0x100 % 0x100, w / 0x1_0000 % 0x100, w / 0x100_0000]
    case Big => [w / 0x100_0000, w / 0x1_0000 % 0x100, w / 0x100 % 0x100, w % 0x100]
  }

  lemma StoreLoad16(e: Endian, w: U16)
    ensures Load16(e, Store16(e, w)) == w
  {
  }

  lemma LoadStore16(e: Endian, s: seq<Byte>)
    requires |s| == 2
    ensures Store16(e, Load16(e, s)) == s
  {
  }

  lemma StoreLoad32(e: Endian, w: U32)
    ensures Load32(e, Store32(e, w)) == w
  {
    var a, b, c := w / 0x100, w / 0x1_0000, w / 0x100_0000;
    assert w == 0x100 * a + w % 0x100;
    assert a == 0x100 * b + a % 0x100;
    assert b == 0x100 * c + b % 0x100;
  }

  lemma LoadStore32(e: Endian, s: seq<Byte>)
    requires |s| == 4
    ensures Store32(e, Load32(e, s)) == s
  {
    match e
    case Little => Digits(s[3], s[2], s[1], s[0]);
    case Big => Digits(s[0], s[1], s[2], s[3]);
  }

  lemma Digits(a: Byte, b: Byte, c: Byte, d: Byte)
    ensures var w: int := 0x100_0000 * (a as int) + 0x1_0000 * (b as int) + 0x100 * (c as int) + d;
      && w % 0x100 == d && w / 0x100 % 0x100 == c && w / 0x1_0000 % 0x100 == b && w / 0x100_0000 == a
  {
    var w: int := 0x100_0000 * (a as int) + 0x1_0000 * (b as int) + 0x100 * (c as int) + d;
    assert w / 0x100 == 0x1_0000 * (a as int) + 0x100 * (b as int) + c;
    assert w / 0x1_0000 == 0x100 * (a as int) + b;
  }

  // ---------- slices ----------

  lemma SameSlice(s: seq<Byte>, t: seq<Byte>, a: nat, b: nat)
    requires a <= b <= |s| && b <= |t|
    requires forall k :: a <= k < b ==> s[k] == t[k]
    ensures s[a..b] == t[a..b]
  {
  }

  lemma SliceOfPrefix(s: seq<Byte>, t: seq<Byte>, n: nat, a: nat, b: nat)
    requires a <= b <= n <= |s| && n <= |t| && s[..n] == t[..n]
    ensures s[a..b] == t[a..b]
  {
    forall k | a <= k < b ensures s[k] == t[k] {
      assert s[k] == s[..n][k] && t[k] == t[..n][k];
    }
    SameSlice(s, t, a, b);
  }

  lemma SubSlice(s: seq<Byte>, at: nat, n: nat, i: nat, j: nat)
    requires at + n <= |s| && i <= j <= n
    ensures s[at..at + n][i..j] == s[at + i..at + j]
  {
    var t := s[at..at + n];
    forall k | 0 <= k < j - i ensures t[i..j][k] == s[at + i..at + j][k] {
      assert t[i..j][k] == t[i + k] == s[at + (i + k)];
    }
  }

  lemma ThreeSlices(s: seq<Byte>, at: nat, a: seq<Byte>, b: seq<Byte>, c: seq<Byte>)
    requires at + |a| + |b| + |c| <= |s| && s[at..at + |a| + |b| + |c|] == a + b + c
    ensures s[at..at + |a|] == a && s[at + |a|..at + |a| + |b|] == b
    ensures s[at + |a| + |b|..at + |a| + |b| + |c|] == c
  {
    var t := a + b + c;
    SubSlice(s, at, |t|, 0, |a|);
    SubSlice(s, at, |t|, |a|, |a| + |b|);
    SubSlice(s, at, |t|, |a| + |b|, |t|);
    assert t[..|a|] == a && t[|a|..|a| + |b|] == b && t[|a| + |b|..] == c;
  }

  /** `n` zero bytes, as memset leaves them. */
  function Zeros(n: nat): (s: seq<Byte>)
    ensures |s| == n
    ensures forall k :: 0 <= k < n ==> s[k] == 0
  {
    seq(n, _ => 0)
  }
}
