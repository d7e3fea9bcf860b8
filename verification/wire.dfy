/** The router's wire formats: the fixed packet header and the positional
    distance-vector payloads written by `make_DV_packet` / `make_DVP_packet`
    and read back by `handle_DV_message` / `handle_DVP_message`. */
module Wire {
  import opened Bytes
  import opened Addresses

  /** `sizeof(PackHeader)` with natural alignment: `src` at 0..3, `dst` at
      4..7, `type` at 8, one padding byte at 9, `length` at 10..11. Every
      payload starts at this offset. */
  const HeaderSize: int := 12

  const TypeDv: Byte := 0x00
  const TypeData: Byte := 0x01
  const TypeControl: Byte := 0x02

  /** The one-byte separator (`SPACE`) written before each field. */
  const Separator: Byte := 0x20

  type U16 = x: int | 0 <= x < 0x1_0000

  datatype PackHeader = PackHeader(src: Addr, dst: Addr, kind: Byte, length: U16)

  /** The header's in-memory image. The struct's padding byte is left
      indeterminate by the C++ code; here it is written as zero, and no
      decoder reads it. */
  function EncodeHeader(h: PackHeader): (bs: seq<Byte>)
    ensures |bs| == HeaderSize
    ensures DecodeHeader(bs) == h
  {
    Pow256Values();
    var src := LeBytes(h.src, 4);
    var dst := LeBytes(h.dst, 4);
    var len := LeBytes(h.length, 2);
    var bs := src + dst + [h.kind, 0] + len;
    assert bs[0..4] == src && bs[4..8] == dst && bs[10..12] == len;
    bs
  }

  /** The header read through `reinterpret_cast<PackHeader*>(packet)`;
      the padding byte is not part of any field. */
  function DecodeHeader(bs: seq<Byte>): PackHeader
    requires |bs| >= HeaderSize
  {
    Pow256Values();
    PackHeader(LeValue(bs[0..4]), LeValue(bs[4..8]), bs[8], LeValue(bs[10..12]))
  }

  /** `PackHeader()`: the default-constructed header, all fields zero. */
  function ZeroHeader(): (h: PackHeader)
    ensures EncodeHeader(h) == seq(HeaderSize, _ => 0)
  {
    Pow256Values();
    var z := PackHeader(0, 0, 0, 0);
    assert LeBytes(0, 2) == [0, 0];
    assert LeBytes(0, 4) == [0, 0, 0, 0];
    z
  }

  /** A header followed by a payload: reading the header back gives the
      header, and the payload starts at `HeaderSize`. */
  lemma HeaderRoundTrip(h: PackHeader, payload: seq<Byte>)
    ensures DecodeHeader(EncodeHeader(h) + payload) == h
    ensures (EncodeHeader(h) + payload)[HeaderSize..] == payload
  {
    var e := EncodeHeader(h);
    assert (e + payload)[..HeaderSize] == e;
    assert (e + payload)[0..4] == e[0..4];
    assert (e + payload)[4..8] == e[4..8];
    assert (e + payload)[10..12] == e[10..12];
  }

  /** Any header image whose padding byte is zero is the encoding of the
      header it decodes to. */
  lemma HeaderBytesRoundTrip(bs: seq<Byte>)
    requires |bs| == HeaderSize && bs[9] == 0
    ensures EncodeHeader(DecodeHeader(bs)) == bs
  {
    Pow256Values();
    LeBytesOfValue(bs[0..4]);
    LeBytesOfValue(bs[4..8]);
    LeBytesOfValue(bs[10..12]);
    assert bs == bs[0..4] + bs[4..8] + [bs[8], bs[9]] + bs[10..12];
  }

  /** The packet after `header->src = s; header->dst = d;`: the two address
      fields are rewritten in place and nothing else changes. */
  function WithAddresses(packet: seq<Byte>, src: Addr, dst: Addr): (out: seq<Byte>)
    requires |packet| >= HeaderSize
    ensures |out| == |packet|
    ensures DecodeHeader(out) == DecodeHeader(packet).(src := src, dst := dst)
    ensures out[8..] == packet[8..]
  {
    Pow256Values();
    var s := LeBytes(src, 4);
    var d := LeBytes(dst, 4);
    var out := s + d + packet[8..];
    assert out[0..4] == s && out[4..8] == d;
    assert out[10..12] == packet[10..12];
    out
  }

  /** `memcpy(buffer, bytes, |bytes|)`: the bytes replace the front of the
      buffer and the rest of the buffer is left as it was. */
  function Overwrite(buffer: seq<Byte>, bytes: seq<Byte>): (out: seq<Byte>)
    ensures |out| >= |bytes| && out[..|bytes|] == bytes
    ensures |out| == if |buffer| > |bytes| then |buffer| else |bytes|
    ensures |buffer| > |bytes| ==> out[|bytes|..] == buffer[|bytes|..]
  {
    if |buffer| > |bytes| then bytes + buffer[|bytes|..] else bytes
  }

  // ---------------------------------------------------------------------
  // Distance-vector payloads

  /** One destination's entry in a poisoned-reverse advertisement: the
      advertiser's cost and the router it would forward through (-1 when
      unknown). */
  datatype Advert = Advert(cost: int, nextHop: int)

  /** `sizeof(int) + 2 * router_count * (sizeof(int) + 1)`. */
  function DvpPayloadSize(count: nat): nat {
    4 + 2 * count * 5
  }

  /** `sizeof(int) + router_count * sizeof(int) + router_count`. */
  function DvPayloadSize(count: nat): nat {
    4 + count * 4 + count
  }

  /** Per destination: separator, cost, separator, next hop. */
  function DvpEntries(es: seq<Advert>): (bs: seq<Byte>)
    ensures |bs| == 10 * |es|
  {
    if es == [] then []
    else [Separator] + Int32Bytes(es[0].cost) + [Separator] + Int32Bytes(es[0].nextHop)
         + DvpEntries(es[1..])
  }

  function DvpPayload(advertiser: int, es: seq<Advert>): (bs: seq<Byte>)
    ensures |bs| == DvpPayloadSize(|es|)
  {
    Int32Bytes(advertiser) + DvpEntries(es)
  }

  /** The packet `make_DVP_packet` writes: a header `(0, 0, TYPE_DV, size)`
      whose 16-bit length field holds the payload size modulo 2^16, then the
      payload. */
  function DvpPacket(advertiser: int, es: seq<Advert>): (bs: seq<Byte>)
    ensures |bs| == HeaderSize + DvpPayloadSize(|es|)
  {
    EncodeHeader(PackHeader(0, 0, TypeDv, DvpPayloadSize(|es|) % 0x1_0000))
    + DvpPayload(advertiser, es)
  }

  /** Per destination: separator, cost. */
  function DvEntries(costs: seq<int>): (bs: seq<Byte>)
    ensures |bs| == 5 * |costs|
  {
    if costs == [] then []
    else [Separator] + Int32Bytes(costs[0]) + DvEntries(costs[1..])
  }

  function DvPayload(advertiser: int, costs: seq<int>): (bs: seq<Byte>)
    ensures |bs| == DvPayloadSize(|costs|)
  {
    Int32Bytes(advertiser) + DvEntries(costs)
  }

  /** The packet `make_DV_packet` writes. */
  function DvPacket(advertiser: int, costs: seq<int>): (bs: seq<Byte>)
    ensures |bs| == HeaderSize + DvPayloadSize(|costs|)
  {
    EncodeHeader(PackHeader(0, 0, TypeDv, DvPayloadSize(|costs|) % 0x1_0000))
    + DvPayload(advertiser, costs)
  }

  // ---------------------------------------------------------------------
  // The receiver's positional reads, relative to the payload start

  /** The advertiser id (or the -1 resend sentinel) at payload offset 0. */
  function AdvertiserOf(payload: seq<Byte>): int
    requires |payload| >= 4
  {
    Int32At(payload, 0)
  }

  /** Cost of destination `i` in a DVP payload: offset `4 + 1 + 10 * (i - 1)`. */
  function DvpCostAt(payload: seq<Byte>, i: int): int
    requires 1 <= i && 10 * i + 4 <= |payload|
  {
    Int32At(payload, 10 * i - 5)
  }

  /** Next hop of destination `i` in a DVP payload: five bytes after its cost. */
  function DvpNextHopAt(payload: seq<Byte>, i: int): int
    requires 1 <= i && 10 * i + 4 <= |payload|
  {
    Int32At(payload, 10 * i)
  }

  /** Cost of destination `i` in a plain DV payload: offset `4 + 1 + 5 * (i - 1)`. */
  function DvCostAt(payload: seq<Byte>, i: int): int
    requires 1 <= i && 5 * i + 4 <= |payload|
  {
    Int32At(payload, 5 * i)
  }

  lemma {:induction false} DvpEntriesRead(es: seq<Advert>, i: int)
    requires 1 <= i <= |es|
    ensures Int32At(DvpEntries(es), 10 * i - 9) == Wrap32(es[i - 1].cost)
    ensures Int32At(DvpEntries(es), 10 * i - 4) == Wrap32(es[i - 1].nextHop)
  {
    var c := Int32Bytes(es[0].cost);
    var n := Int32Bytes(es[0].nextHop);
    var head := [Separator] + c + [Separator] + n;
    var rest := DvpEntries(es[1..]);
    assert DvpEntries(es) == head + rest;
    if i == 1 {
      assert (head + rest)[1..5] == c;
      assert (head + rest)[6..10] == n;
      Int32RoundTrip(es[0].cost);
      Int32RoundTrip(es[0].nextHop);
    } else {
      DvpEntriesRead(es[1..], i - 1);
      Int32AtAppend(head, rest, 10 * (i - 1) - 9);
      Int32AtAppend(head, rest, 10 * (i - 1) - 4);
    }
  }

  lemma {:induction false} DvEntriesRead(costs: seq<int>, i: int)
    requires 1 <= i <= |costs|
    ensures Int32At(DvEntries(costs), 5 * i - 4) == Wrap32(costs[i - 1])
  {
    var c := Int32Bytes(costs[0]);
    var head := [Separator] + c;
    var rest := DvEntries(costs[1..]);
    assert DvEntries(costs) == head + rest;
    if i == 1 {
      assert (head + rest)[1..5] == c;
      Int32RoundTrip(costs[0]);
    } else {
      DvEntriesRead(costs[1..], i - 1);
      Int32AtAppend(head, rest, 5 * (i - 1) - 4);
    }
  }

  /** DVP round trip: reading a DVP payload at the receiver's offsets gives
      back the advertiser and, for every destination `1..count`, the
      advertised cost and next hop, as 32-bit `int`s. */
  lemma DvpRoundTrip(advertiser: int, es: seq<Advert>)
    ensures AdvertiserOf(DvpPayload(advertiser, es)) == Wrap32(advertiser)
    ensures forall i :: 1 <= i <= |es| ==>
      DvpCostAt(DvpPayload(advertiser, es), i) == Wrap32(es[i - 1].cost) &&
      DvpNextHopAt(DvpPayload(advertiser, es), i) == Wrap32(es[i - 1].nextHop)
  {
    var a := Int32Bytes(advertiser);
    var body := DvpEntries(es);
    assert DvpPayload(advertiser, es)[0..4] == a;
    Int32RoundTrip(advertiser);
    forall i | 1 <= i <= |es|
      ensures DvpCostAt(DvpPayload(advertiser, es), i) == Wrap32(es[i - 1].cost)
      ensures DvpNextHopAt(DvpPayload(advertiser, es), i) == Wrap32(es[i - 1].nextHop)
    {
      DvpEntriesRead(es, i);
      Int32AtAppend(a, body, 10 * i - 9);
      Int32AtAppend(a, body, 10 * i - 4);
    }
  }

  /** The same round trip for the plain DV layout. */
  lemma DvRoundTrip(advertiser: int, costs: seq<int>)
    ensures AdvertiserOf(DvPayload(advertiser, costs)) == Wrap32(advertiser)
    ensures forall i :: 1 <= i <= |costs| ==>
      DvCostAt(DvPayload(advertiser, costs), i) == Wrap32(costs[i - 1])
  {
    var a := Int32Bytes(advertiser);
    var body := DvEntries(costs);
    assert DvPayload(advertiser, costs)[0..4] == a;
    Int32RoundTrip(advertiser);
    forall i | 1 <= i <= |costs|
      ensures DvCostAt(DvPayload(advertiser, costs), i) == Wrap32(costs[i - 1])
    {
      DvEntriesRead(costs, i);
      Int32AtAppend(a, body, 5 * i - 4);
    }
  }

  /** A DVP packet is a DV-type header followed by its payload. */
  lemma DvpPacketLayout(advertiser: int, es: seq<Advert>)
    ensures DecodeHeader(DvpPacket(advertiser, es)).kind == TypeDv
    ensures DvpPacket(advertiser, es)[HeaderSize..] == DvpPayload(advertiser, es)
  {
    HeaderRoundTrip(PackHeader(0, 0, TypeDv, DvpPayloadSize(|es|) % 0x1_0000), DvpPayload(advertiser, es));
  }

  /** A DV packet is a DV-type header followed by its payload. */
  lemma DvPacketLayout(advertiser: int, costs: seq<int>)
    ensures DecodeHeader(DvPacket(advertiser, costs)).kind == TypeDv
    ensures DvPacket(advertiser, costs)[HeaderSize..] == DvPayload(advertiser, costs)
  {
    HeaderRoundTrip(PackHeader(0, 0, TypeDv, DvPayloadSize(|costs|) % 0x1_0000), DvPayload(advertiser, costs));
  }

  /** The payload of a packet buffer: everything after the header. */
  function Payload(packet: seq<Byte>): seq<Byte>
    requires |packet| >= HeaderSize
  {
    packet[HeaderSize..]
  }

  /** A buffer a packet was copied over is the packet followed by what
      remains of the buffer. */
  function Leftover(buffer: seq<Byte>, bytes: seq<Byte>): (rest: seq<Byte>)
    ensures Overwrite(buffer, bytes) == bytes + rest
  {
    if |buffer| > |bytes| then buffer[|bytes|..] else []
  }

  /** The header and payload of a buffer a packet was copied over. */
  lemma FramedBuffer(h: PackHeader, body: seq<Byte>, buffer: seq<Byte>)
    ensures var out := Overwrite(buffer, EncodeHeader(h) + body);
      && |out| >= HeaderSize + |body|
      && DecodeHeader(out) == h
      && Payload(out) == body + Leftover(buffer, EncodeHeader(h) + body)
  {
    var rest := Leftover(buffer, EncodeHeader(h) + body);
    assert EncodeHeader(h) + body + rest == EncodeHeader(h) + (body + rest);
    HeaderRoundTrip(h, body + rest);
  }

  /** Reading back a buffer a DVP packet was copied over: the header as
      built (its length fits 16 bits), then the advertiser and every
      destination's cost and next hop as 32-bit `int`s. */
  lemma DvpBufferRead(advertiser: int, es: seq<Advert>, buffer: seq<Byte>)
    requires DvpPayloadSize(|es|) < 0x1_0000
    ensures var out := Overwrite(buffer, DvpPacket(advertiser, es));
      && |out| >= HeaderSize + DvpPayloadSize(|es|)
      && DecodeHeader(out) == PackHeader(0, 0, TypeDv, DvpPayloadSize(|es|))
      && AdvertiserOf(Payload(out)) == Wrap32(advertiser)
      && forall i :: 1 <= i <= |es| ==>
           DvpCostAt(Payload(out), i) == Wrap32(es[i - 1].cost) &&
           DvpNextHopAt(Payload(out), i) == Wrap32(es[i - 1].nextHop)
  {
    var h := PackHeader(0, 0, TypeDv, DvpPayloadSize(|es|));
    var body := DvpPayload(advertiser, es);
    assert DvpPayloadSize(|es|) % 0x1_0000 == DvpPayloadSize(|es|);
    assert DvpPacket(advertiser, es) == EncodeHeader(h) + body;
    FramedBuffer(h, body, buffer);
    var rest := Leftover(buffer, EncodeHeader(h) + body);
    DvpRoundTrip(advertiser, es);
    Int32AtPrefix(body, rest, 0);
    forall i | 1 <= i <= |es|
      ensures DvpCostAt(body + rest, i) == Wrap32(es[i - 1].cost)
      ensures DvpNextHopAt(body + rest, i) == Wrap32(es[i - 1].nextHop)
    {
      assert DvpCostAt(body, i) == Wrap32(es[i - 1].cost);
      assert DvpNextHopAt(body, i) == Wrap32(es[i - 1].nextHop);
      Int32AtPrefix(body, rest, 10 * i - 5);
      Int32AtPrefix(body, rest, 10 * i);
    }
  }

  /** The same for a buffer a plain DV packet was copied over. */
  lemma DvBufferRead(advertiser: int, costs: seq<int>, buffer: seq<Byte>)
    requires DvPayloadSize(|costs|) < 0x1_0000
    ensures var out := Overwrite(buffer, DvPacket(advertiser, costs));
      && |out| >= HeaderSize + DvPayloadSize(|costs|)
      && DecodeHeader(out) == PackHeader(0, 0, TypeDv, DvPayloadSize(|costs|))
      && AdvertiserOf(Payload(out)) == Wrap32(advertiser)
      && forall i :: 1 <= i <= |costs| ==> DvCostAt(Payload(out), i) == Wrap32(costs[i - 1])
  {
    var h := PackHeader(0, 0, TypeDv, DvPayloadSize(|costs|));
    var body := DvPayload(advertiser, costs);
    assert DvPayloadSize(|costs|) % 0x1_0000 == DvPayloadSize(|costs|);
    assert DvPacket(advertiser, costs) == EncodeHeader(h) + body;
    FramedBuffer(h, body, buffer);
    var rest := Leftover(buffer, EncodeHeader(h) + body);
    DvRoundTrip(advertiser, costs);
    Int32AtPrefix(body, rest, 0);
    forall i | 1 <= i <= |costs|
      ensures DvCostAt(body + rest, i) == Wrap32(costs[i - 1])
    {
      assert DvCostAt(body, i) == Wrap32(costs[i - 1]);
      Int32AtPrefix(body, rest, 5 * i);
    }
  }
}
