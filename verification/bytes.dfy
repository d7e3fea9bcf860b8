/** Bytes and fixed-width integers.

    The router copies `int`, `uint16_t` and `uint32_t` values into and out of
    byte buffers with `memcpy` and `reinterpret_cast`. On the little-endian hosts
    the code was written for, that is the little-endian encoding below; a
    C++ `int` is the two's-complement 32-bit reading of the same four bytes. */
module Bytes {

  type Byte = x: int | 0 <= x < 256

  const Two31: int := 0x8000_0000
  const Two32: int := 0x1_0000_0000

  function Pow256(k: nat): (p: nat)
    ensures p >= 1
  {
    if k == 0 then 1 else 256 * Pow256(k - 1)
  }

  lemma Pow256Values()
    ensures Pow256(2) == 0x1_0000
    ensures Pow256(4) == Two32
    ensures Pow256(6) == 0x1_0000_0000_0000
  {
    assert Pow256(1) == 256;
    assert Pow256(2) == 0x1_0000;
    assert Pow256(3) == 0x100_0000;
    assert Pow256(4) == Two32;
    assert Pow256(5) == 0x100_0000_0000;
  }

  /** The unsigned value of a little-endian byte string. */
  function LeValue(bs: seq<Byte>): (u: nat)
    ensures u < Pow256(|bs|)
  {
    if |bs| == 0 then 0 else bs[0] + 256 * LeValue(bs[1..])
  }

  /** The `k` little-endian bytes of `u`; decoding them gives `u` back. */
  function LeBytes(u: nat, k: nat): (bs: seq<Byte>)
    requires u < Pow256(k)
    ensures |bs| == k
    ensures LeValue(bs) == u
  {
    if k == 0 then []
    else
      var rest := LeBytes(u / 256, k - 1);
      assert [u % 256] + rest == [u % 256] + rest;
      assert ([u % 256] + rest)[1..] == rest;
      [u % 256] + rest
  }

  /** The other direction of the round trip: every byte string is the
      encoding of its own value. */
  lemma {:induction false} LeBytesOfValue(bs: seq<Byte>)
    ensures LeBytes(LeValue(bs), |bs|) == bs
  {
    if |bs| > 0 {
      var u := LeValue(bs);
      assert u % 256 == bs[0];
      assert u / 256 == LeValue(bs[1..]);
      LeBytesOfValue(bs[1..]);
    }
  }

  /** Encodings of equal width are equal exactly when the values are. */
  lemma LeBytesInjective(u: nat, v: nat, k: nat)
    requires u < Pow256(k) && v < Pow256(k)
    requires LeBytes(u, k) == LeBytes(v, k)
    ensures u == v
  {
    assert LeValue(LeBytes(u, k)) == LeValue(LeBytes(v, k));
  }

  /** The value a C++ `int` holds after being given the mathematical
      integer `x`: the unique number in [-2^31, 2^31) congruent to `x`
      modulo 2^32. */
  function Wrap32(x: int): (w: int)
    ensures -Two31 <= w < Two31
    ensures (x - w) % Two32 == 0
    ensures -Two31 <= x < Two31 ==> w == x
  {
    (x + Two31) % Two32 - Two31
  }

  /** `memcpy(dst, &x, sizeof(int))` for an `int` holding `x`. */
  function Int32Bytes(x: int): (bs: seq<Byte>)
    ensures |bs| == 4
  {
    Pow256Values();
    LeBytes(x % Two32, 4)
  }

  /** `*(reinterpret_cast<int*>(p))`: the two's-complement reading. */
  function Int32Of(bs: seq<Byte>): (x: int)
    requires |bs| == 4
    ensures -Two31 <= x < Two31
  {
    Pow256Values();
    var u := LeValue(bs);
    if u >= Two31 then u - Two32 else u
  }

  lemma Int32RoundTrip(x: int)
    ensures Int32Of(Int32Bytes(x)) == Wrap32(x)
  {
    Pow256Values();
    var u := x % Two32;
    assert LeValue(Int32Bytes(x)) == u;
    var q := x / Two32;
    assert x == q * Two32 + u;
    if u < Two31 {
      assert x + Two31 == q * Two32 + (u + Two31);
      assert (x + Two31) % Two32 == u + Two31;
    } else {
      assert x + Two31 == (q + 1) * Two32 + (u - Two31);
      assert (x + Two31) % Two32 == u - Two31;
    }
  }

  lemma Int32BytesOfValue(bs: seq<Byte>)
    requires |bs| == 4
    ensures Int32Bytes(Int32Of(bs)) == bs
  {
    Pow256Values();
    LeBytesOfValue(bs);
    var u := LeValue(bs);
    if u >= Two31 {
      assert (u - Two32) % Two32 == u;
    }
  }

  /** The four-byte `int` stored at offset `off` of a buffer. */
  function Int32At(s: seq<Byte>, off: int): int
    requires 0 <= off && off + 4 <= |s|
  {
    Int32Of(s[off..off + 4])
  }

  /** Bytes appended after a value do not change it. */
  lemma Int32AtPrefix(a: seq<Byte>, b: seq<Byte>, k: int)
    requires 0 <= k && k + 4 <= |a|
    ensures Int32At(a + b, k) == Int32At(a, k)
  {
    assert (a + b)[k..k + 4] == a[k..k + 4];
  }

  /** Reading past a prefix is reading the suffix. */
  lemma Int32AtAppend(a: seq<Byte>, b: seq<Byte>, k: int)
    requires 0 <= k && k + 4 <= |b|
    ensures Int32At(a + b, |a| + k) == Int32At(b, k)
  {
    assert (a + b)[|a| + k..|a| + k + 4] == b[k..k + 4];
  }
}
