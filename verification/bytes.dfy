/** Bytes, little-endian fixed-width integers and block arithmetic shared by
    the host image builder and the device. */
module Bytes {

  type byte = x: int | 0 <= x < 256
  type Bytes = seq<byte>

  /** A SHA-256 digest, an HMAC-SHA-256 tag or an HMAC key: 32 bytes. */
  type Digest = d: Bytes | |d| == 32 witness seq(32, i => 0)

  const U16_LIMIT: nat := 0x1_0000
  const U32_LIMIT: nat := 0x1_0000_0000

  predicate IsU16(x: int) { 0 <= x < U16_LIMIT }
  predicate IsU32(x: int) { 0 <= x < U32_LIMIT }

  /** `n` copies of byte `b`. */
  function Fill(n: nat, b: byte): (r: Bytes)
    ensures |r| == n
    ensures forall i :: 0 <= i < n ==> r[i] == b
  {
    seq(n, i => b)
  }

  function Zeros(n: nat): (r: Bytes)
    ensures |r| == n
    ensures forall i :: 0 <= i < n ==> r[i] == 0
  {
    Fill(n, 0)
  }

  /** Little-endian encoding of a 16-bit value, as `struct.pack("<H")`. */
  function Le16(x: nat): (r: Bytes)
    requires IsU16(x)
    ensures |r| == 2
  {
    [x % 256, x / 256]
  }

  /** Little-endian encoding of a 32-bit value, as `struct.pack("<I")`: the
      low half first. */
  function Le32(x: nat): (r: Bytes)
    requires IsU32(x)
    ensures |r| == 4
  {
    Le16(x % U16_LIMIT) + Le16(x / U16_LIMIT)
  }

  /** The 16-bit little-endian value stored at `b[off..off + 2]`. */
  function ReadLe16(b: Bytes, off: nat): (r: nat)
    requires off + 2 <= |b|
    ensures IsU16(r)
  {
    var lo: int := b[off];
    var hi: int := b[off + 1];
    lo + 256 * hi
  }

  /** The 32-bit little-endian value stored at `b[off..off + 4]`. */
  function ReadLe32(b: Bytes, off: nat): (r: nat)
    requires off + 4 <= |b|
    ensures IsU32(r)
  {
    ReadLe16(b, off) + U16_LIMIT * ReadLe16(b, off + 2)
  }

  /** Reading back an encoded 16-bit value gives the value. */
  lemma Le16RoundTrip(x: nat, pre: Bytes, post: Bytes)
    requires IsU16(x)
    ensures ReadLe16(pre + Le16(x) + post, |pre|) == x
  {
    var b := pre + Le16(x) + post;
    assert b[|pre|] == x % 256 && b[|pre| + 1] == x / 256;
  }

  /** Reading back an encoded 32-bit value gives the value. */
  lemma Le32RoundTrip(x: nat, pre: Bytes, post: Bytes)
    requires IsU32(x)
    ensures ReadLe32(pre + Le32(x) + post, |pre|) == x
  {
    var lo, hi := x % U16_LIMIT, x / U16_LIMIT;
    assert pre + Le32(x) + post == pre + Le16(lo) + (Le16(hi) + post);
    assert pre + Le32(x) + post == (pre + Le16(lo)) + Le16(hi) + post;
    Le16RoundTrip(lo, pre, Le16(hi) + post);
    Le16RoundTrip(hi, pre + Le16(lo), post);
  }

  /** Encoding a decoded 16-bit field gives back the two bytes. */
  lemma ReadLe16Encode(b: Bytes, off: nat)
    requires off + 2 <= |b|
    ensures Le16(ReadLe16(b, off)) == b[off..off + 2]
  {
  }

  /** Encoding a decoded 32-bit field gives back the four bytes. */
  lemma ReadLe32Encode(b: Bytes, off: nat)
    requires off + 4 <= |b|
    ensures Le32(ReadLe32(b, off)) == b[off..off + 4]
  {
    var lo, hi := ReadLe16(b, off), ReadLe16(b, off + 2);
    assert ReadLe32(b, off) % U16_LIMIT == lo;
    assert ReadLe32(b, off) / U16_LIMIT == hi;
    ReadLe16Encode(b, off);
    ReadLe16Encode(b, off + 2);
    assert b[off..off + 4] == b[off..off + 2] + b[off + 2..off + 4];
  }

  /** A 16-bit field stored at `off` reads back as its value. */
  lemma Le16Slice(b: Bytes, off: nat, x: nat)
    requires IsU16(x) && off + 2 <= |b| && b[off..off + 2] == Le16(x)
    ensures ReadLe16(b, off) == x
  {
    assert b[off] == b[off..off + 2][0] && b[off + 1] == b[off..off + 2][1];
  }

  /** A 32-bit field stored at `off` reads back as its value. */
  lemma Le32Slice(b: Bytes, off: nat, x: nat)
    requires IsU32(x) && off + 4 <= |b| && b[off..off + 4] == Le32(x)
    ensures ReadLe32(b, off) == x
  {
    var w := b[off..off + 4];
    assert b[off] == w[0] && b[off + 1] == w[1] && b[off + 2] == w[2] && b[off + 3] == w[3];
    Le32RoundTrip(x, [], []);
    assert [] + Le32(x) + [] == w;
  }

  /** A slice of bytes stored at `off` is the same slice of the whole,
      shifted by `off`. */
  lemma SliceOfSlice(a: Bytes, off: nat, b: Bytes, lo: nat, hi: nat)
    requires off + |b| <= |a| && a[off..off + |b|] == b && lo <= hi <= |b|
    ensures a[off + lo..off + hi] == b[lo..hi]
  {
    forall k | 0 <= k < hi - lo
      ensures a[off + lo..off + hi][k] == b[lo..hi][k]
    {
      assert a[off..off + |b|][lo + k] == a[off + lo + k];
    }
  }

  /** A 32-bit little-endian word is zero exactly when its four bytes are. */
  lemma Le32ZeroIff(b: Bytes, off: nat)
    requires off + 4 <= |b|
    ensures ReadLe32(b, off) == 0 <==> (b[off] == 0 && b[off + 1] == 0 && b[off + 2] == 0 && b[off + 3] == 0)
  {
  }

  /** A 32-bit word read from four 0xFF bytes is 0xFFFFFFFF, and only then. */
  lemma Le32BlankIff(b: Bytes, off: nat)
    requires off + 4 <= |b|
    ensures ReadLe32(b, off) == 0xFFFF_FFFF
        <==> (b[off] == 0xFF && b[off + 1] == 0xFF && b[off + 2] == 0xFF && b[off + 3] == 0xFF)
  {
  }

  /** Ceiling division for a positive divisor, written as Python's
      `((n - 1) // d) + 1` (floor division; Dafny's division agrees with
      Python's for a positive divisor); for n == 0 it is 0 since
      floor(-1 / d) == -1. */
  function CeilDiv(n: nat, d: nat): (r: nat)
    requires d > 0
    ensures r * d >= n
    ensures r == 0 || (r - 1) * d < n
    ensures n == 0 <==> r == 0
  {
    var q := (n - 1) / d;
    assert n == 0 ==> q == -1;
    assert n > 0 ==> q * d <= n - 1 < q * d + d;
    q + 1
  }

  /** The two bounds in CeilDiv's contract pin the quotient down. */
  lemma CeilDivUnique(n: nat, d: nat, r: nat)
    requires d > 0
    requires r * d >= n
    requires r == 0 || (r - 1) * d < n
    ensures r == CeilDiv(n, d)
  {
    var c := CeilDiv(n, d);
    if c > 0 {
      MulCancel(c - 1, r, d);
    }
    if r > 0 {
      MulCancel(r - 1, c, d);
    }
  }

  lemma MulCancel(a: int, b: int, d: nat)
    requires d > 0 && a * d < b * d
    ensures a < b
  {
    assert (b - a) * d == b * d - a * d;
  }

  /** `m` whole blocks in front add `m` to the block count. */
  lemma CeilDivAddBlocks(m: nat, n: nat, d: nat)
    requires d > 0
    ensures CeilDiv(m * d + n, d) == m + CeilDiv(n, d)
  {
    var c := CeilDiv(n, d);
    assert (m + c) * d == m * d + c * d;
    if c > 0 {
      assert (m + c - 1) * d == m * d + (c - 1) * d;
    }
    CeilDivUnique(m * d + n, d, m + c);
  }

  /** A length that is a whole number of blocks. */
  lemma CeilDivExact(m: nat, d: nat)
    requires d > 0
    ensures CeilDiv(m * d, d) == m
  {
    CeilDivAddBlocks(m, 0, d);
  }

  /** Euclidean division is determined by quotient and remainder. */
  lemma DivModUnique(x: int, d: nat, k: int, r: int)
    requires d > 0 && x == k * d + r && 0 <= r < d
    ensures x / d == k && x % d == r
  {
    var q, m := x / d, x % d;
    assert (k - q) * d == m - r;
    MulCancel(k - q, 1, d);
    MulCancel(-1, k - q, d);
  }

  predicate AllU32(ws: seq<nat>) {
    forall i :: 0 <= i < |ws| ==> IsU32(ws[i])
  }

  /** 32-bit words stored little-endian one after the other. */
  function EncodeWords(ws: seq<nat>): (r: Bytes)
    requires AllU32(ws)
    ensures |r| == 4 * |ws|
  {
    if ws == [] then [] else Le32(ws[0]) + EncodeWords(ws[1..])
  }

  /** The 32-bit little-endian words of `r`. */
  function DecodeWords(r: Bytes): (ws: seq<nat>)
    requires |r| % 4 == 0
    ensures |ws| == |r| / 4 && AllU32(ws)
  {
    if r == [] then [] else [ReadLe32(r, 0)] + DecodeWords(r[4..])
  }

  lemma {:induction false} DecodeEncodeWords(ws: seq<nat>)
    requires AllU32(ws)
    ensures DecodeWords(EncodeWords(ws)) == ws
  {
    if ws != [] {
      var r := EncodeWords(ws);
      assert r == Le32(ws[0]) + EncodeWords(ws[1..]);
      Le32RoundTrip(ws[0], [], EncodeWords(ws[1..]));
      assert [] + Le32(ws[0]) + EncodeWords(ws[1..]) == r;
      assert r[4..] == EncodeWords(ws[1..]);
      DecodeEncodeWords(ws[1..]);
    }
  }

  lemma {:induction false} EncodeDecodeWords(r: Bytes)
    requires |r| % 4 == 0
    ensures EncodeWords(DecodeWords(r)) == r
  {
    if r != [] {
      var ws := DecodeWords(r);
      assert ws[1..] == DecodeWords(r[4..]);
      EncodeDecodeWords(r[4..]);
      ReadLe32Encode(r, 0);
      assert r == r[0..4] + r[4..];
    }
  }
}
