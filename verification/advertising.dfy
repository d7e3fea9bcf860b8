/** Building the router's own advertisement: `make_DVP_packet` (costs with
    the next hop of each route, for poisoned reverse) and the legacy
    `make_DV_packet` (costs only). Both first give every destination the
    own row lacks the cost `DV_INF`, then copy the packet over the front of
    the caller's buffer. */
module Advertising {
  import opened Common
  import opened Bytes
  import opened Wire
  import opened DistanceVector
  import opened RouterState

  /** Every destination `1..count` missing from the own row is inserted with
      `DV_INF`; every cell already present stays as it is. The own row is
      created (possibly empty) whenever the loop runs. */
  function FillOwnRow(dv: Table, id: int, count: int): (dv': Table)
    ensures forall k :: 1 <= k <= count ==> Look(dv', id, k).Some?
    ensures forall k :: 1 <= k <= count && Look(dv, id, k).None? ==> Look(dv', id, k) == Some(DvInf)
    ensures forall q, k :: Look(dv, q, k).Some? ==> Look(dv', q, k) == Look(dv, q, k)
    ensures forall q, k :: (q != id || k < 1 || k > count) ==> Look(dv', q, k) == Look(dv, q, k)
    ensures NonOwnKept(dv, dv', id)
  {
    if count < 1 then dv
    else
      var row := RowOf(dv, id);
      dv[id := map k | k in row.Keys + Span(1, count) :: if k in row then row[k] else DvInf]
  }

  /** The router that forwarding to `i` goes through: the neighbour on the
      port of the route to `i`, or -1 when there is no route or no known
      neighbour on that port. */
  function NextHopOf(r: Router, i: int): int {
    if i in r.routes && r.routes[i] in r.neighbors then r.neighbors[r.routes[i]] else -1
  }

  /** The per-destination entries of the own advertisement, for `1..count`. */
  function Advertisement(r: Router, count: nat): (es: seq<Advert>)
    ensures |es| == count
    ensures forall k :: 0 <= k < count ==> es[k] == Advert(CellOr(r.dv, r.id, k + 1, DvInf), NextHopOf(r, k + 1))
  {
    seq(count, k requires 0 <= k < count => Advert(CellOr(r.dv, r.id, k + 1, DvInf), NextHopOf(r, k + 1)))
  }

  /** The packet, with its 16-bit length field, must fit the local array
      the advertisement is built in. */
  predicate DvpFits(count: nat) {
    DvpPayloadSize(count) < 0x1_0000
  }

  predicate DvFits(count: nat) {
    DvPayloadSize(count) < 0x1_0000
  }

  /** The id written into an advertisement: -1 asks the receiver to answer
      with its own advertisement. */
  function AdvertiserId(r: Router, forceUpload: bool): int {
    if forceUpload then -1 else r.id
  }

  /** `make_DVP_packet(packet, force_upload)`: the router with its own row
      filled in, and the buffer with the advertisement copied over its front. */
  function MakeDvp(r: Router, count: nat, buffer: seq<Byte>, forceUpload: bool): (res: (Router, seq<Byte>))
    requires DvpFits(count)
    ensures res.0 == r.(dv := FillOwnRow(r.dv, r.id, count))
    ensures |res.1| >= HeaderSize + DvpPayloadSize(count)
  {
    var r' := r.(dv := FillOwnRow(r.dv, r.id, count));
    (r', Overwrite(buffer, DvpPacket(AdvertiserId(r, forceUpload), Advertisement(r', count))))
  }

  /** `make_DV_packet(packet, force_upload)`. */
  function MakeDv(r: Router, count: nat, buffer: seq<Byte>, forceUpload: bool): (res: (Router, seq<Byte>))
    requires DvFits(count)
    ensures res.0 == r.(dv := FillOwnRow(r.dv, r.id, count))
    ensures |res.1| >= HeaderSize + DvPayloadSize(count)
  {
    var r' := r.(dv := FillOwnRow(r.dv, r.id, count));
    var costs := seq(count, k requires 0 <= k < count => CellOr(r'.dv, r.id, k + 1, DvInf));
    (r', Overwrite(buffer, DvPacket(AdvertiserId(r, forceUpload), costs)))
  }

  /** What a receiver reads back from `make_DVP_packet`'s buffer at
      `handle_DVP_message`'s offsets: a DV-type header whose length field is
      the payload size, the advertiser id (or -1), and for every destination
      `1..count` the sender's own cost (present after the fill) and the
      next hop of its route, each as a 32-bit `int`. */
  lemma MakeDvpReadBack(r: Router, count: nat, buffer: seq<Byte>, forceUpload: bool)
    requires DvpFits(count)
    ensures var (r', out) := MakeDvp(r, count, buffer, forceUpload);
      && DecodeHeader(out) == PackHeader(0, 0, TypeDv, DvpPayloadSize(count))
      && AdvertiserOf(Payload(out)) == Wrap32(AdvertiserId(r, forceUpload))
      && forall i :: 1 <= i <= count ==>
           && Look(r'.dv, r.id, i).Some?
           && DvpCostAt(Payload(out), i) == Wrap32(CellOr(r'.dv, r.id, i, 0))
           && DvpNextHopAt(Payload(out), i) == Wrap32(NextHopOf(r, i))
  {
    var (r', out) := MakeDvp(r, count, buffer, forceUpload);
    var es := Advertisement(r', count);
    DvpBufferRead(AdvertiserId(r, forceUpload), es, buffer);
    forall i | 1 <= i <= count
      ensures es[i - 1] == Advert(CellOr(r'.dv, r.id, i, 0), NextHopOf(r, i))
    {
    }
  }

  /** The same for `make_DV_packet` and `handle_DV_message`'s offsets. */
  lemma MakeDvReadBack(r: Router, count: nat, buffer: seq<Byte>, forceUpload: bool)
    requires DvFits(count)
    ensures var (r', out) := MakeDv(r, count, buffer, forceUpload);
      && DecodeHeader(out) == PackHeader(0, 0, TypeDv, DvPayloadSize(count))
      && AdvertiserOf(Payload(out)) == Wrap32(AdvertiserId(r, forceUpload))
      && forall i :: 1 <= i <= count ==>
           Look(r'.dv, r.id, i).Some? && DvCostAt(Payload(out), i) == Wrap32(CellOr(r'.dv, r.id, i, 0))
  {
    var (r', out) := MakeDv(r, count, buffer, forceUpload);
    var costs := seq(count, k requires 0 <= k < count => CellOr(r'.dv, r.id, k + 1, DvInf));
    DvBufferRead(AdvertiserId(r, forceUpload), costs, buffer);
    forall i | 1 <= i <= count
      ensures costs[i - 1] == CellOr(r'.dv, r.id, i, 0)
    {
    }
  }
}
