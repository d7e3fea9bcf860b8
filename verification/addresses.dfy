/** IPv4 addresses as the router stores them, and CIDR block expansion.

    An address is a `uint32_t` whose four bytes in memory are the dotted-quad
    octets in order (`a | b << 8 | c << 16 | d << 24`); on a little-endian
    host that is network byte order. `ntohl`/`htonl` then reverse the bytes,
    giving the numeric value whose most significant byte is `a`, on which
    prefix masks are computed. */
module Addresses {
  import opened Bytes

  type Addr = x: int | 0 <= x < 0x1_0000_0000

  /** The four octets of a dotted quad `a.b.c.d`. */
  datatype Quad = Quad(a: Byte, b: Byte, c: Byte, d: Byte)

  /** `a | (b << 8) | (c << 16) | (d << 24)`. The octets occupy disjoint
      bits, so the bitwise or is a sum. */
  function PackQuad(q: Quad): (x: Addr)
    ensures UnpackQuad(x) == q
  {
    var high := q.c + 0x100 * q.d;
    var middle := q.b + 0x100 * high;
    DivModOf(middle, q.a, 0x100);
    DivModOf(high, q.b, 0x100);
    DivModOf(q.d, q.c, 0x100);
    q.a + 0x100 * middle
  }

  /** The four octets `ipv4 & 0xff`, `(ipv4 >> 8) & 0xff`, ... printed by
      the address formatter, in printing order. */
  function UnpackQuad(x: Addr): (q: Quad)
  {
    var s8 := x / 0x100;
    var s16 := s8 / 0x100;
    var s24 := s16 / 0x100;
    Quad(x % 0x100, s8 % 0x100, s16 % 0x100, s24)
  }

  lemma PackUnpack(x: Addr)
    ensures PackQuad(UnpackQuad(x)) == x
  {
  }

  /** The bytes of a packed address in memory are its octets in order. */
  lemma PackedBytes(q: Quad)
    ensures Pow256(4) == Two32
    ensures LeBytes(PackQuad(q), 4) == [q.a, q.b, q.c, q.d]
  {
    Pow256Values();
    var bs := [q.a, q.b, q.c, q.d];
    assert bs[1..] == [q.b, q.c, q.d];
    assert bs[1..][1..] == [q.c, q.d];
    assert bs[1..][1..][1..] == [q.d];
    assert [q.d][1..] == [];
    assert LeValue([q.d]) == q.d;
    assert LeValue([q.c, q.d]) == q.c + 0x100 * q.d;
    assert LeValue([q.b, q.c, q.d]) == q.b + 0x100 * (q.c + 0x100 * q.d);
    assert LeValue(bs) == PackQuad(q);
    LeBytesOfValue(bs);
  }

  /** `ntohl` / `htonl` on a little-endian host: the byte order reversed. */
  function Swap(x: Addr): (y: Addr)
  {
    var q := UnpackQuad(x);
    PackQuad(Quad(q.d, q.c, q.b, q.a))
  }

  /** Swapping twice restores the address, so `ntohl` and `htonl` are
      inverse to each other and `Swap` is injective. */
  lemma SwapInvolution(x: Addr)
    ensures Swap(Swap(x)) == x
  {
    PackUnpack(x);
  }

  /** An address written `a.b.c.d/prefix`. */
  datatype Cidr = Cidr(addr: Quad, prefix: int)

  /** Prefix lengths the expansion is defined for: `1U << 32` is undefined
      behaviour in C++, so `/0` is not one of them. */
  predicate ValidPrefix(c: Cidr) {
    1 <= c.prefix <= 32
  }

  function Pow2(n: nat): (p: nat)
    ensures p >= 1
  {
    if n == 0 then 1 else 2 * Pow2(n - 1)
  }

  lemma {:induction false} Pow2Add(m: nat, n: nat)
    ensures Pow2(m + n) == Pow2(m) * Pow2(n)
  {
    if m > 0 {
      Pow2Add(m - 1, n);
      assert Pow2(m + n) == 2 * Pow2(m - 1 + n);
    }
  }

  lemma Pow2ThirtyTwo()
    ensures Pow2(32) == Two32
  {
    Pow2Add(16, 16);
    Pow2Add(8, 8);
    Pow2Add(4, 4);
    Pow2Add(2, 2);
  }

  /** Number of addresses in the block: `temp_mask + 1` where
      `temp_mask == (1U << (32 - prefix)) - 1`. */
  function BlockSize(c: Cidr): (n: nat)
    requires ValidPrefix(c)
    ensures n >= 1
  {
    Pow2(32 - c.prefix)
  }

  /** Numeric (host-order) value of the written address. */
  function Numeric(c: Cidr): Addr {
    Swap(PackQuad(c.addr))
  }

  /** Division by a positive number, restated for one exact decomposition. */
  lemma DivModOf(q: int, k: int, n: int)
    requires n > 0 && 0 <= k < n
    ensures (n * q + k) / n == q
    ensures (n * q + k) % n == k
  {
    var x := n * q + k;
    var q' := x / n;
    var k' := x % n;
    assert x == n * q' + k';
    assert n * (q - q') == k' - k;
    if q - q' >= 1 {
      assert false;
    } else if q - q' <= -1 {
      assert false;
    }
  }

  lemma MulLe(n: int, a: int, b: int)
    requires n >= 0 && a <= b
    ensures n * a <= n * b
  {
    var d := b - a;
    assert n * b == n * a + n * d;
  }

  /** Clearing the low bits of `v < n * m` (`v - v % n`) leaves a multiple of
      `n` with the same quotient, and a whole block of `n` above it still
      fits below `n * m`. */
  lemma ClearLow(v: int, n: int, m: int)
    requires n >= 1 && m >= 1 && 0 <= v < n * m
    ensures 0 <= v - v % n
    ensures (v - v % n) % n == 0
    ensures (v - v % n) / n == v / n
    ensures v - v % n + n <= n * m
  {
    var q := v / n;
    var r := v % n;
    assert v == n * q + r;
    if q < 0 {
      MulLe(n, q, -1);
      assert false;
    }
    if q >= m {
      MulLe(n, m, q);
      assert false;
    }
    MulLe(n, q + 1, m);
    assert n * (q + 1) == n * q + n;
    DivModOf(q, 0, n);
  }

  /** `ntohl(ip) & ~temp_mask`: the numeric value with its host bits cleared. */
  function BlockBase(c: Cidr): (base: nat)
    requires ValidPrefix(c)
    ensures base % BlockSize(c) == 0
    ensures base + BlockSize(c) <= Two32
    ensures base / BlockSize(c) == Numeric(c) / BlockSize(c)
  {
    var n := BlockSize(c);
    var v := Numeric(c);
    Pow2Add(32 - c.prefix, c.prefix);
    Pow2ThirtyTwo();
    ClearLow(v, n, Pow2(c.prefix));
    v - v % n
  }

  /** `htonl(base + i)`: the `i`-th address of a block whose numeric value
      starts at `base`. */
  function BlockAddr(base: nat, i: nat): Addr
    requires base + i < Two32
  {
    Swap(base + i)
  }

  /** The first `m` addresses of a block. */
  function BlockPrefix(base: nat, m: nat): set<Addr>
    requires base + m <= Two32
  {
    set i: nat | i < m :: BlockAddr(base, i)
  }

  /** Every address of the block, `htonl(temp_ip + i)` for
      `0 <= i <= temp_mask`, in the stored byte order. */
  function Block(c: Cidr): set<Addr>
    requires ValidPrefix(c)
  {
    BlockPrefix(BlockBase(c), BlockSize(c))
  }

  /** The address lies in the block: its numeric value agrees with the
      written address on the `prefix` leading bits. */
  predicate InBlock(x: Addr, c: Cidr)
    requires ValidPrefix(c)
  {
    Swap(x) / BlockSize(c) == Numeric(c) / BlockSize(c)
  }

  /** An offset below `n` from a multiple of `n` keeps the quotient. */
  lemma SameQuotient(base: int, i: int, n: int)
    requires n >= 1 && base % n == 0 && 0 <= i < n
    ensures (base + i) / n == base / n
  {
    var q := base / n;
    assert base == n * q + base % n;
    DivModOf(q, i, n);
  }

  /** A value with the quotient of a multiple of `n` is that multiple plus
      its remainder. */
  lemma SplitByQuotient(v: int, base: int, n: int)
    requires n >= 1 && base % n == 0 && v / n == base / n
    ensures v == base + v % n
  {
    assert v == n * (v / n) + v % n;
    assert base == n * (base / n) + base % n;
  }

  lemma BlockMemberInBlock(c: Cidr, i: nat)
    requires ValidPrefix(c) && i < BlockSize(c)
    ensures InBlock(BlockAddr(BlockBase(c), i), c)
  {
    var n := BlockSize(c);
    var base := BlockBase(c);
    var v := base + i;
    SwapInvolution(v);
    assert Swap(BlockAddr(base, i)) == v;
    SameQuotient(base, i, n);
  }

  lemma InBlockIsMember(c: Cidr, x: Addr)
    requires ValidPrefix(c) && InBlock(x, c)
    ensures x in Block(c)
  {
    var n := BlockSize(c);
    var base := BlockBase(c);
    var v := Swap(x);
    SplitByQuotient(v, base, n);
    var i: nat := v % n;
    assert i < n && base + i == v;
    SwapBack(x, base, i);
    PrefixMember(base, n, i);
  }

  /** The block address whose numeric value is that of `x` is `x`. */
  lemma SwapBack(x: Addr, base: nat, i: nat)
    requires base + i == Swap(x)
    ensures BlockAddr(base, i) == x
  {
    SwapInvolution(x);
  }

  lemma PrefixMember(base: nat, m: nat, i: nat)
    requires base + m <= Two32 && i < m
    ensures BlockAddr(base, i) in BlockPrefix(base, m)
  {
  }

  /** Block expansion is exact: an address is enumerated iff it shares the
      block's network prefix. */
  lemma BlockMembers(c: Cidr)
    requires ValidPrefix(c)
    ensures forall x: Addr :: x in Block(c) <==> InBlock(x, c)
  {
    forall x: Addr
      ensures x in Block(c) <==> InBlock(x, c)
    {
      if x in Block(c) {
        var i: nat :| i < BlockSize(c) && x == BlockAddr(BlockBase(c), i);
        BlockMemberInBlock(c, i);
      }
      if InBlock(x, c) {
        InBlockIsMember(c, x);
      }
    }
  }

  lemma {:induction false} BlockPrefixSize(base: nat, m: nat)
    requires base + m <= Two32
    ensures |BlockPrefix(base, m)| == m
  {
    if m == 0 {
      assert forall x :: x in BlockPrefix(base, 0) <==> x in {};
      assert BlockPrefix(base, 0) == {};
    } else {
      BlockPrefixSize(base, m - 1);
      PrefixGrows(base, m);
      PrefixLastNew(base, m);
    }
  }

  /** The first `m` addresses are the first `m - 1` and the `m`-th. */
  lemma PrefixGrows(base: nat, m: nat)
    requires base + m <= Two32 && m >= 1
    ensures BlockPrefix(base, m) == BlockPrefix(base, m - 1) + {BlockAddr(base, m - 1)}
  {
    var smaller := BlockPrefix(base, m - 1);
    var last := BlockAddr(base, m - 1);
    forall x | x in BlockPrefix(base, m)
      ensures x in smaller + {last}
    {
      var k: nat :| k < m && x == BlockAddr(base, k);
      if k < m - 1 {
        PrefixMember(base, m - 1, k);
        assert x in smaller;
      } else {
        assert x == last;
      }
    }
    forall x | x in smaller + {last}
      ensures x in BlockPrefix(base, m)
    {
      if x == last {
        PrefixMember(base, m, m - 1);
      } else {
        var k: nat :| k < m - 1 && x == BlockAddr(base, k);
        PrefixMember(base, m, k);
      }
    }
  }

  /** The `m`-th address is none of the first `m - 1`: byte swapping is
      injective. */
  lemma PrefixLastNew(base: nat, m: nat)
    requires base + m <= Two32 && m >= 1
    ensures BlockAddr(base, m - 1) !in BlockPrefix(base, m - 1)
  {
  }

  /** A `/prefix` block holds exactly `2^(32 - prefix)` addresses. */
  lemma BlockCardinality(c: Cidr)
    requires ValidPrefix(c)
    ensures |Block(c)| == Pow2(32 - c.prefix)
  {
    var base := BlockBase(c);
    var n := BlockSize(c);
    assert Block(c) == BlockPrefix(base, n);
    BlockPrefixSize(base, n);
  }
}
