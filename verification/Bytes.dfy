/** Bytes, little-endian integers and the two wrapper types shared by every module. */
module Bytes {

  /** One byte of a file. */
  type Byte = b: nat | b < 256

  type Bytes = seq<Byte>

  const TWO_64: nat := 0x1_0000_0000_0000_0000

  type U64 = x: nat | x < TWO_64

  /** The 64-bit hash of a byte string. The format fixes one keyed hash; nothing here depends on which. */
  type Hash = Bytes -> U64

  datatype Option<+T> = None | Some(value: T)

  datatype Result<+T, +E> = Success(value: T) | Failure(error: E)

  function Min(a: nat, b: nat): nat { if a <= b then a else b }

  function Max(a: nat, b: nat): nat { if a >= b then a else b }

  /** The low `n` bytes of `x`, least significant first (`to_le_bytes` of an n-byte integer). */
  function LittleEndian(x: nat, n: nat): (r: Bytes)
    ensures |r| == n
  {
    if n == 0 then [] else [x % 256] + LittleEndian(x / 256, n - 1)
  }

  /** The integer whose little-endian bytes are `s` (`from_le_bytes`). */
  function FromLittleEndian(s: Bytes): nat {
    if s == [] then 0 else s[0] + 256 * FromLittleEndian(s[1..])
  }

  /** 256 to the power `n`. */
  function Pow256(n: nat): nat
    ensures Pow256(n) > 0
  {
    if n == 0 then 1 else 256 * Pow256(n - 1)
  }

  /** Reading back the n-byte encoding of an integer that fits in n bytes returns it. */
  lemma {:induction false} LittleEndianRoundTrip(x: nat, n: nat)
    requires x < Pow256(n)
    ensures FromLittleEndian(LittleEndian(x, n)) == x
  {
    if n > 0 {
      LittleEndianRoundTrip(x / 256, n - 1);
      assert LittleEndian(x, n)[1..] == LittleEndian(x / 256, n - 1);
    }
  }

  /** Conversely every byte string is the encoding of the integer read from it. */
  lemma {:induction false} FromLittleEndianRoundTrip(s: Bytes)
    ensures FromLittleEndian(s) < Pow256(|s|)
    ensures LittleEndian(FromLittleEndian(s), |s|) == s
  {
    if s != [] {
      FromLittleEndianRoundTrip(s[1..]);
      assert FromLittleEndian(s) / 256 == FromLittleEndian(s[1..]);
    }
  }

  /** Byte `k` holds the bits from 8 * k on. */
  lemma {:induction false} LittleEndianByte(x: nat, n: nat, k: nat)
    requires k < n
    ensures LittleEndian(x, n)[k] == x / Pow256(k) % 256
    decreases k
  {
    if k > 0 {
      LittleEndianByte(x / 256, n - 1, k - 1);
      DivideTwice(x, Pow256(k - 1));
    }
  }

  lemma DivideTwice(x: nat, d: nat)
    requires d > 0
    ensures x / (256 * d) == x / 256 / d
  {
    var q := x / (256 * d);
    DivisionFacts(x, 256 * d);
    var r := x - 256 * (d * q);
    assert 256 * d * q == 256 * (d * q);
    assert x / 256 == d * q + r / 256;
    QuotientOf(d, q, r / 256);
  }

  lemma QuotientOf(d: nat, q: nat, r: nat)
    requires r < d
    ensures (d * q + r) / d == q
  {
    var x := d * q + r;
    var p := x / d;
    DivisionFacts(x, d);
    if q > p {
      TimesAtLeastOne(d, q, p);
    } else if q < p {
      TimesAtLeastOne(d, p, q);
    }
  }

  lemma DivisionFacts(x: nat, d: nat)
    requires d > 0
    ensures d * (x / d) <= x < d * (x / d) + d
  {
  }

  lemma {:induction false} TimesAtLeastOne(d: nat, m: nat, n: nat)
    requires n < m
    ensures d * n + d <= d * m
    decreases m
  {
    OneMoreTimes(d, m - 1);
    if n < m - 1 {
      TimesAtLeastOne(d, m - 1, n);
    }
  }

  lemma OneMoreTimes(d: nat, n: nat)
    ensures d * (n + 1) == d * n + d
  {
  }

  function LE64(x: nat): (r: Bytes)
    ensures |r| == 8
  {
    LittleEndian(x, 8)
  }

  lemma LE64RoundTrip(x: nat)
    requires x < TWO_64
    ensures FromLittleEndian(LE64(x)) == x
  {
    assert Pow256(8) == TWO_64 by {
      assert Pow256(2) == 0x10000;
      assert Pow256(4) == 0x1_0000_0000;
      assert Pow256(6) == 0x1_0000_0000_0000;
    }
    LittleEndianRoundTrip(x, 8);
  }

  lemma LE64Bound(s: Bytes)
    requires |s| == 8
    ensures FromLittleEndian(s) < TWO_64
    ensures LE64(FromLittleEndian(s)) == s
  {
    assert Pow256(8) == TWO_64 by {
      assert Pow256(2) == 0x10000;
      assert Pow256(4) == 0x1_0000_0000;
      assert Pow256(6) == 0x1_0000_0000_0000;
    }
    FromLittleEndianRoundTrip(s);
  }

  /** `n` zero bytes. */
  function Zeros(n: nat): (r: Bytes)
    ensures |r| == n
  {
    seq(n, i => 0)
  }

  lemma TakeDropConcat<T>(a: seq<T>, b: seq<T>)
    ensures (a + b)[..|a|] == a && (a + b)[|a|..] == b
  {
  }

  lemma SliceOfSuffix<T>(s: seq<T>, pos: nat, n: nat)
    requires pos + n <= |s|
    ensures s[pos..][..n] == s[pos..pos + n] && s[pos..][n..] == s[pos + n..]
  {
  }
}
