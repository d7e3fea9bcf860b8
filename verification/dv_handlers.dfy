/** Receiving distance-vector advertisements: `handle_DVP_message` (poisoned
    reverse followed by the full Bellman-Ford recomputation, the handler the
    dispatcher uses) and the legacy `handle_DV_message` (relaxation through
    the advertiser only). */
module DvHandlers {
  import opened Common
  import opened Bytes
  import opened Wire
  import opened DistanceVector
  import opened RouterState
  import opened Advertising

  /** `port_to_routernear.insert(...)`: a port keeps the first neighbour
      learned on it. */
  function AddNeighbor(nbr: map<int, int>, port: int, from: int): (nbr': map<int, int>)
    ensures port in nbr' && nbr'[port] == (if port in nbr then nbr[port] else from)
    ensures forall p :: p != port ==> Find(nbr', p) == Find(nbr, p)
  {
    if port in nbr then nbr else nbr[port := from]
  }

  /** A DV-type packet the handler can read: the advertiser id, and the
      whole payload unless the id is the resend sentinel -1. */
  predicate DvpReadable(packet: seq<Byte>, count: nat) {
    && |packet| >= HeaderSize + 4
    && (AdvertiserOf(Payload(packet)) != -1 ==> |Payload(packet)| >= DvpPayloadSize(count))
  }

  predicate DvReadable(packet: seq<Byte>, count: nat) {
    && |packet| >= HeaderSize + 4
    && (AdvertiserOf(Payload(packet)) != -1 ==> |Payload(packet)| >= DvPayloadSize(count))
  }

  /** What the receiver caches for destination `i` of a DVP payload: the
      advertised cost, or `DV_INF` when the advertiser's route to `i` goes
      through the receiver itself (poisoned reverse). */
  function StoredCost(payload: seq<Byte>, i: int, self: int): int
    requires 1 <= i && 10 * i + 4 <= |payload|
  {
    if DvpNextHopAt(payload, i) == self then DvInf else DvpCostAt(payload, i)
  }

  /** `DV_table[from_router_id][i] = ...` for every `i` in `1..count`. */
  function StoreDvp(dv: Table, from: int, self: int, payload: seq<Byte>, count: nat): (dv': Table)
    requires |payload| >= DvpPayloadSize(count)
    ensures forall i :: 1 <= i <= count ==> Look(dv', from, i) == Some(StoredCost(payload, i, self))
    ensures forall q, k :: (q != from || k < 1 || k > count) ==> Look(dv', q, k) == Look(dv, q, k)
    ensures dv'.Keys == if count >= 1 then dv.Keys + {from} else dv.Keys
  {
    if count < 1 then dv
    else
      var row := RowOf(dv, from);
      dv[from := map k | k in row.Keys + Span(1, count) ::
                  if 1 <= k <= count then StoredCost(payload, k, self) else row[k]]
  }

  /** Everything after the resend check: learn the neighbour, cache the
      advertisement, recompute the own row. Also yields `renewed`. */
  function AcceptDvp(r: Router, count: nat, inPort: int, payload: seq<Byte>): (res: (Router, bool))
    requires |payload| >= DvpPayloadSize(count)
    ensures res.0.portCost == r.portCost && res.0.id == r.id
  {
    var from := AdvertiserOf(payload);
    var nbr := AddNeighbor(r.neighbors, inPort, from);
    var dv1 := StoreDvp(r.dv, from, r.id, payload, count);
    var (t, renewed) := Recompute(SkipAbsent, r.id, 1, count, nbr, r.portCost, Tables(dv1, r.routes));
    (r.(neighbors := nbr, dv := t.dv, routes := t.routes), renewed)
  }

  /** `handle_DVP_message(packet, length, in_port)`. */
  function HandleDvp(r: Router, reg: Registry, inPort: int, packet: seq<Byte>): (res: Result<Step>)
    requires CostOf(r.portCost, inPort) > 0 ==> DvpReadable(packet, reg.routerCount)
    requires DvpFits(reg.routerCount)
    ensures res.Ok? ==> res.value.registry == reg && res.value.verdict in {0, -1}
  {
    var count := reg.routerCount;
    if CostOf(r.portCost, inPort) <= 0 then Err(UpdateFromHostPort)
    else if AdvertiserOf(Payload(packet)) == -1 then
      var (r', out) := MakeDvp(r, count, packet, false);
      Ok(Step(r', reg, 0, out))
    else
      var (r1, renewed) := AcceptDvp(r, count, inPort, Payload(packet));
      if renewed then
        var (r2, out) := MakeDvp(r1, count, packet, false);
        Ok(Step(r2, reg, 0, out))
      else Ok(Step(r1, reg, -1, packet))
  }

  /** A DV message is refused exactly when the port it arrived on has no
      positive cost, i.e. is not a router link. */
  lemma HandleDvpRefusesHostPorts(r: Router, reg: Registry, inPort: int, packet: seq<Byte>)
    requires CostOf(r.portCost, inPort) > 0 ==> DvpReadable(packet, reg.routerCount)
    requires DvpFits(reg.routerCount)
    ensures HandleDvp(r, reg, inPort, packet).Err? <==> CostOf(r.portCost, inPort) <= 0
    ensures HandleDvp(r, reg, inPort, packet).Err? ==> HandleDvp(r, reg, inPort, packet).fault == UpdateFromHostPort
  {
  }

  /** The resend sentinel: the router answers with its own advertisement
      and verdict 0, and no route, neighbour, cost or present table cell
      changes. */
  lemma HandleDvpResend(r: Router, reg: Registry, inPort: int, packet: seq<Byte>)
    requires DvpReadable(packet, reg.routerCount) && DvpFits(reg.routerCount)
    requires CostOf(r.portCost, inPort) > 0 && AdvertiserOf(Payload(packet)) == -1
    ensures var res := HandleDvp(r, reg, inPort, packet);
      && res.Ok? && res.value.verdict == 0
      && var r' := res.value.router;
      && r'.routes == r.routes && r'.neighbors == r.neighbors && r'.portCost == r.portCost
      && (forall q, k :: Look(r.dv, q, k).Some? ==> Look(r'.dv, q, k) == Look(r.dv, q, k))
      && AdvertiserOf(Payload(res.value.packet)) == Wrap32(r.id)
      && forall i :: 1 <= i <= reg.routerCount ==>
           && DvpCostAt(Payload(res.value.packet), i) == Wrap32(CellOr(r'.dv, r.id, i, 0))
           && DvpNextHopAt(Payload(res.value.packet), i) == Wrap32(NextHopOf(r, i))
  {
    MakeDvpReadBack(r, reg.routerCount, packet, false);
  }

  /** The recomputation's view of the cells the handler cached. */
  lemma AcceptDvpStores(r: Router, count: nat, inPort: int, payload: seq<Byte>)
    requires |payload| >= DvpPayloadSize(count)
    requires AdvertiserOf(payload) != r.id
    ensures var from := AdvertiserOf(payload);
      var r' := AcceptDvp(r, count, inPort, payload).0;
      && (forall i :: 1 <= i <= count ==> Look(r'.dv, from, i) == Some(StoredCost(payload, i, r.id)))
      && (forall q, k :: q != r.id && q != from && Look(r.dv, q, k).Some? ==> Look(r'.dv, q, k) == Look(r.dv, q, k))
      && (forall q, k :: q != r.id && q != from && Look(r.dv, q, k).None? && Look(r'.dv, q, k).Some? ==>
            Look(r'.dv, q, k) == Some(DvInf))
      && (forall q, k :: q == from && (k < 1 || k > count) ==> Look(r'.dv, q, k) == Look(r.dv, q, k))
      && r'.neighbors == AddNeighbor(r.neighbors, inPort, from)
  {
    var from := AdvertiserOf(payload);
    var nbr := AddNeighbor(r.neighbors, inPort, from);
    var dv1 := StoreDvp(r.dv, from, r.id, payload, count);
    RecomputeFrame(SkipAbsent, r.id, 1, count, nbr, r.portCost, Tables(dv1, r.routes));
    RecomputeFills(SkipAbsent, r.id, 1, count, nbr, r.portCost, Tables(dv1, r.routes));
  }

  /** Poisoned reverse: after a DVP from another router, the cached cost of
      every destination `1..count` is `DV_INF` exactly when the advertised
      next hop is the receiver, and the advertised cost otherwise. The port
      learns the advertiser only if it had no neighbour yet. Every present
      cell of another router's row keeps its value; a missing one that a
      neighbour's row lacks may be created, always as `DV_INF`. */
  lemma HandleDvpPoisonedReverse(r: Router, reg: Registry, inPort: int, packet: seq<Byte>)
    requires DvpReadable(packet, reg.routerCount) && DvpFits(reg.routerCount)
    requires CostOf(r.portCost, inPort) > 0
    requires AdvertiserOf(Payload(packet)) != -1 && AdvertiserOf(Payload(packet)) != r.id
    ensures var res := HandleDvp(r, reg, inPort, packet);
      var payload := Payload(packet);
      var from := AdvertiserOf(payload);
      && res.Ok?
      && var r' := res.value.router;
      && (forall i :: 1 <= i <= reg.routerCount ==>
            Look(r'.dv, from, i) == Some(if DvpNextHopAt(payload, i) == r.id then DvInf else DvpCostAt(payload, i)))
      && (forall q, k :: q != r.id && q != from && Look(r.dv, q, k).Some? ==> Look(r'.dv, q, k) == Look(r.dv, q, k))
      && (forall q, k :: q != r.id && q != from && Look(r.dv, q, k).None? && Look(r'.dv, q, k).Some? ==>
            Look(r'.dv, q, k) == Some(DvInf))
      && inPort in r'.neighbors
      && r'.neighbors[inPort] == (if inPort in r.neighbors then r.neighbors[inPort] else from)
      && (forall p :: p != inPort ==> Find(r'.neighbors, p) == Find(r.neighbors, p))
  {
    AcceptDvpStores(r, reg.routerCount, inPort, Payload(packet));
  }

  /** The verdict: 0 exactly when some destination other than the router
      itself ends with a different cost or chosen port; otherwise -1 with
      the buffer untouched. */
  lemma HandleDvpVerdict(r: Router, reg: Registry, inPort: int, packet: seq<Byte>)
    requires DvpReadable(packet, reg.routerCount) && DvpFits(reg.routerCount)
    requires CostOf(r.portCost, inPort) > 0
    requires AdvertiserOf(Payload(packet)) != -1 && AdvertiserOf(Payload(packet)) != r.id
    ensures var res := HandleDvp(r, reg, inPort, packet);
      && res.Ok?
      && var r' := res.value.router;
      && (res.value.verdict == 0 <==>
            exists k :: 1 <= k <= reg.routerCount && k != r.id &&
              Differs(Tables(r.dv, r.routes), Tables(r'.dv, r'.routes), r.id, k))
      && (res.value.verdict == -1 ==> res.value.packet == packet)
  {
    var count := reg.routerCount;
    var payload := Payload(packet);
    var (r1, renewed) := AcceptDvp(r, count, inPort, payload);
    HandleDvpAccepts(r, reg, inPort, packet);
    AcceptDvpRenewed(r, count, inPort, payload);
    if renewed {
      FillKeepsDiffers(Tables(r.dv, r.routes), r1, count);
    }
  }

  /** With verdict 0 the buffer holds the router's new advertisement: its
      own id, and for every destination its cost and next hop after the
      update. */
  lemma HandleDvpAdvertises(r: Router, reg: Registry, inPort: int, packet: seq<Byte>)
    requires DvpReadable(packet, reg.routerCount) && DvpFits(reg.routerCount)
    requires CostOf(r.portCost, inPort) > 0
    requires AdvertiserOf(Payload(packet)) != -1
    requires HandleDvp(r, reg, inPort, packet).Ok? && HandleDvp(r, reg, inPort, packet).value.verdict == 0
    ensures var s := HandleDvp(r, reg, inPort, packet).value;
      && AdvertiserOf(Payload(s.packet)) == Wrap32(r.id)
      && forall i :: 1 <= i <= reg.routerCount ==>
           && DvpCostAt(Payload(s.packet), i) == Wrap32(CellOr(s.router.dv, r.id, i, 0))
           && DvpNextHopAt(Payload(s.packet), i) == Wrap32(NextHopOf(s.router, i))
  {
    var r1 := AcceptDvp(r, reg.routerCount, inPort, Payload(packet)).0;
    HandleDvpAccepts(r, reg, inPort, packet);
    MakeDvpReadBack(r1, reg.routerCount, packet, false);
  }

  /** Past the two early exits, the handler is `AcceptDvp` followed, when
      something changed, by the router's own advertisement. */
  lemma HandleDvpAccepts(r: Router, reg: Registry, inPort: int, packet: seq<Byte>)
    requires DvpReadable(packet, reg.routerCount) && DvpFits(reg.routerCount)
    requires CostOf(r.portCost, inPort) > 0 && AdvertiserOf(Payload(packet)) != -1
    ensures var (r1, renewed) := AcceptDvp(r, reg.routerCount, inPort, Payload(packet));
      var (r2, out) := MakeDvp(r1, reg.routerCount, packet, false);
      HandleDvp(r, reg, inPort, packet) == if renewed then Ok(Step(r2, reg, 0, out)) else Ok(Step(r1, reg, -1, packet))
  {
  }

  /** `renewed` compares the own row and routes before and after, for
      every destination but the router itself; afterwards each of those
      destinations has an own cost. */
  lemma AcceptDvpRenewed(r: Router, count: nat, inPort: int, payload: seq<Byte>)
    requires |payload| >= DvpPayloadSize(count)
    requires AdvertiserOf(payload) != r.id
    ensures var (r1, renewed) := AcceptDvp(r, count, inPort, payload);
      && (renewed <==> (exists k :: 1 <= k <= count && k != r.id &&
                         Differs(Tables(r.dv, r.routes), Tables(r1.dv, r1.routes), r.id, k)))
      && forall k :: 1 <= k <= count && k != r.id ==> Look(r1.dv, r.id, k).Some?
  {
    var from := AdvertiserOf(payload);
    var nbr := AddNeighbor(r.neighbors, inPort, from);
    var dv1 := StoreDvp(r.dv, from, r.id, payload, count);
    var t0 := Tables(dv1, r.routes);
    var (t, renewed) := Recompute(SkipAbsent, r.id, 1, count, nbr, r.portCost, t0);
    RecomputeReportsChange(SkipAbsent, r.id, 1, count, nbr, r.portCost, t0);
    RecomputeFrame(SkipAbsent, r.id, 1, count, nbr, r.portCost, t0);
    forall k | 1 <= k <= count && k != r.id
      ensures Differs(Tables(r.dv, r.routes), t, r.id, k) == Differs(t0, t, r.id, k)
    {
      assert Look(dv1, r.id, k) == Look(r.dv, r.id, k);
    }
  }

  /** Filling the own row before advertising leaves every cost that is
      already there, so it cannot change what differs. */
  lemma FillKeepsDiffers(t: Tables, r1: Router, count: nat)
    requires forall k :: 1 <= k <= count && k != r1.id ==> Look(r1.dv, r1.id, k).Some?
    ensures forall k :: 1 <= k <= count && k != r1.id ==>
      Differs(t, Tables(FillOwnRow(r1.dv, r1.id, count), r1.routes), r1.id, k) == Differs(t, Tables(r1.dv, r1.routes), r1.id, k)
  {
    forall k | 1 <= k <= count && k != r1.id
      ensures CellOr(FillOwnRow(r1.dv, r1.id, count), r1.id, k, 0) == CellOr(r1.dv, r1.id, k, 0)
    {
      assert Look(FillOwnRow(r1.dv, r1.id, count), r1.id, k) == Look(r1.dv, r1.id, k);
    }
  }

  /** A router whose neighbours all have complete rows, receiving a DVP
      from another router, ends with the Bellman-Ford own row: for every
      destination other than itself, the least of `DV_INF` and every
      port's cost plus its neighbour's cached cost, routed through the
      first port in ascending order achieving it, or through the old port
      when nothing beats `DV_INF`. Its neighbours' rows stay complete. */
  lemma HandleDvpBellmanFord(r: Router, reg: Registry, inPort: int, packet: seq<Byte>)
    requires DvpReadable(packet, reg.routerCount) && DvpFits(reg.routerCount)
    requires CostOf(r.portCost, inPort) > 0 && reg.routerCount >= 1
    requires AdvertiserOf(Payload(packet)) != -1 && AdvertiserOf(Payload(packet)) != r.id
    requires NeighborsReady(r, reg.routerCount)
    ensures var res := HandleDvp(r, reg, inPort, packet);
      && res.Ok?
      && var r' := res.value.router;
      && NeighborsReady(r', reg.routerCount)
      && r'.portCost == r.portCost
      && forall k :: 1 <= k <= reg.routerCount && k != r.id ==>
           BestRoute(Tables(r'.dv, r'.routes), r.routes, r.id, k, r'.neighbors, r'.portCost)
  {
    var count := reg.routerCount;
    var r1 := AcceptDvp(r, count, inPort, Payload(packet)).0;
    HandleDvpAccepts(r, reg, inPort, packet);
    AcceptDvpBellmanFord(r, count, inPort, Payload(packet));
    var r' := HandleDvp(r, reg, inPort, packet).value.router;
    if r' != r1 {
      assert r' == r1.(dv := FillOwnRow(r1.dv, r.id, count));
      RowsCompleteKept(r1.dv, r'.dv, r.id, r1.neighbors, count);
      forall k | 1 <= k <= count && k != r.id
        ensures BestRoute(Tables(r'.dv, r'.routes), r.routes, r.id, k, r'.neighbors, r'.portCost)
      {
        assert BestRoute(Tables(r1.dv, r1.routes), r.routes, r.id, k, r1.neighbors, r1.portCost);
        assert Look(r'.dv, r.id, k) == Look(r1.dv, r.id, k);
        BestRouteKept(Tables(r1.dv, r1.routes), Tables(r'.dv, r'.routes), r.routes, r.id, k, r1.neighbors, r.portCost);
      }
    }
  }

  /** The table update alone: the neighbour rows stay complete and every
      destination but the router itself gets the cheapest route through
      its neighbours. */
  lemma AcceptDvpBellmanFord(r: Router, count: nat, inPort: int, payload: seq<Byte>)
    requires |payload| >= DvpPayloadSize(count)
    requires CostOf(r.portCost, inPort) > 0 && count >= 1
    requires AdvertiserOf(payload) != -1 && AdvertiserOf(payload) != r.id
    requires NeighborsReady(r, count)
    ensures var r1 := AcceptDvp(r, count, inPort, payload).0;
      && NeighborsReady(r1, count)
      && r1.portCost == r.portCost
      && forall k :: 1 <= k <= count && k != r.id ==>
           BestRoute(Tables(r1.dv, r1.routes), r.routes, r.id, k, r1.neighbors, r1.portCost)
  {
    var from := AdvertiserOf(payload);
    var nbr := AddNeighbor(r.neighbors, inPort, from);
    var dv1 := StoreDvp(r.dv, from, r.id, payload, count);
    var t0 := Tables(dv1, r.routes);
    assert RowsComplete(dv1, r.id, nbr, count) by {
      forall p | p in nbr
        ensures nbr[p] != r.id && nbr[p] in dv1 && RowHolds(dv1[nbr[p]], count)
      {
        var n := nbr[p];
        if n == from {
          forall j | 1 <= j <= count ensures j in dv1[n] {
            assert Look(dv1, n, j).Some?;
          }
        } else {
          assert p in r.neighbors && r.neighbors[p] == n;
          forall j | 1 <= j <= count ensures j in dv1[n] {
            assert Look(dv1, n, j) == Look(r.dv, n, j);
          }
        }
      }
    }
    var (t, renewed) := Recompute(SkipAbsent, r.id, 1, count, nbr, r.portCost, t0);
    assert AcceptDvp(r, count, inPort, payload).0 == r.(neighbors := nbr, dv := t.dv, routes := t.routes);
    RecomputeBest(SkipAbsent, r.id, 1, count, nbr, r.portCost, t0);
    RowsCompleteKept(dv1, t.dv, r.id, nbr, count);
    RecomputeFrame(SkipAbsent, r.id, 1, count, nbr, r.portCost, t0);
  }

  /** One router's advertisement, delivered on a router link of another
      router, is cached there as advertised, except that every destination
      the sender routes through the receiver is poisoned to `DV_INF`. */
  lemma AdvertiseThenReceive(a: Router, b: Router, reg: Registry, inPort: int, buffer: seq<Byte>)
    requires DvpFits(reg.routerCount)
    requires -Two31 <= a.id < Two31 && a.id != -1 && a.id != b.id
    requires CostOf(b.portCost, inPort) > 0
    ensures var (a', out) := MakeDvp(a, reg.routerCount, buffer, false);
      && DvpReadable(out, reg.routerCount)
      && var res := HandleDvp(b, reg, inPort, out);
      && res.Ok?
      && forall i :: 1 <= i <= reg.routerCount ==>
           Look(res.value.router.dv, a.id, i) ==
             Some(if Wrap32(NextHopOf(a, i)) == b.id then DvInf else Wrap32(CellOr(a'.dv, a.id, i, 0)))
  {
    MakeDvpReadBack(a, reg.routerCount, buffer, false);
    var (a', out) := MakeDvp(a, reg.routerCount, buffer, false);
    assert AdvertiserOf(Payload(out)) == a.id;
    HandleDvpPoisonedReverse(b, reg, inPort, out);
  }

  // ---------------------------------------------------------------------
  // The legacy handler

  /** `DV_table[from_router_id][i] = temp_DV_val` for every `i` in `1..count`. */
  function StoreDv(dv: Table, from: int, payload: seq<Byte>, count: nat): (dv': Table)
    requires |payload| >= DvPayloadSize(count)
    ensures forall i :: 1 <= i <= count ==> Look(dv', from, i) == Some(DvCostAt(payload, i))
    ensures forall q, k :: (q != from || k < 1 || k > count) ==> Look(dv', q, k) == Look(dv, q, k)
  {
    if count < 1 then dv
    else
      var row := RowOf(dv, from);
      dv[from := map k | k in row.Keys + Span(1, count) ::
                  if 1 <= k <= count then DvCostAt(payload, k) else row[k]]
  }

  /** The advertiser's path to `k`, the advertised cost plus the link
      cost, is strictly cheaper than the own cost (`DV_INF` when missing). */
  predicate Improves(dv: Table, id: int, from: int, c: int, k: int) {
    CellOr(dv, id, k, DvInf) > CellOr(dv, from, k, 0) + c
  }

  /** One destination of the legacy relaxation: a missing own cost becomes
      `DV_INF`, then the advertiser's path replaces it when strictly
      cheaper. Also yields whether it did. */
  function RelaxOne(id: int, from: int, c: int, inPort: int, i: int, t: Tables): (res: (Tables, bool))
    ensures from != id ==> res.1 == Improves(t.dv, id, from, c, i)
    ensures from != id ==>
              Look(res.0.dv, id, i) == Some(if res.1 then CellOr(t.dv, from, i, 0) + c else CellOr(t.dv, id, i, DvInf))
    ensures Look(res.0.dv, id, i).Some?
    ensures Find(res.0.routes, i) == (if res.1 then Some(inPort) else Find(t.routes, i))
    ensures forall k :: k != i ==> Look(res.0.dv, id, k) == Look(t.dv, id, k)
    ensures forall k :: k != i ==> Find(res.0.routes, k) == Find(t.routes, k)
    ensures NonOwnKept(t.dv, res.0.dv, id)
  {
    var dv1 := if Look(t.dv, id, i).Some? then t.dv else Put(t.dv, id, i, DvInf);
    var via := CellOr(dv1, from, i, 0) + c;
    var better := CellOr(dv1, id, i, 0) > via;
    assert from != id ==> CellOr(dv1, from, i, 0) == CellOr(t.dv, from, i, 0);
    (if better then Tables(Put(dv1, id, i, via), t.routes[i := inPort]) else t.(dv := dv1), better)
  }

  /** The legacy relaxation for destinations `i..count` (`handle_DV_message`
      compares every destination, itself included), and whether it replaced
      anything. */
  function RelaxVia(id: int, from: int, c: int, inPort: int, i: int, count: int, t: Tables): (Tables, bool)
    decreases count - i + 1
  {
    if i > count then (t, false)
    else
      var (t1, better) := RelaxOne(id, from, c, inPort, i, t);
      var (t2, more) := RelaxVia(id, from, c, inPort, i + 1, count, t1);
      (t2, better || more)
  }

  /** Destination `k` after the legacy relaxation: the own cost is the
      smaller of the old one (`DV_INF` when missing) and the advertiser's
      cost plus the link cost, and the route is the arrival port exactly
      when the latter is strictly smaller. */
  ghost predicate RelaxedAt(t: Tables, t': Tables, id: int, from: int, c: int, inPort: int, k: int) {
    && Look(t'.dv, id, k) == Some(if Improves(t.dv, id, from, c, k) then CellOr(t.dv, from, k, 0) + c
                                  else CellOr(t.dv, id, k, DvInf))
    && Find(t'.routes, k) == (if Improves(t.dv, id, from, c, k) then Some(inPort) else Find(t.routes, k))
  }

  lemma RelaxedAtRebase(t: Tables, t1: Tables, t': Tables, id: int, from: int, c: int, inPort: int, k: int)
    requires RelaxedAt(t1, t', id, from, c, inPort, k)
    requires Look(t1.dv, id, k) == Look(t.dv, id, k) && Look(t1.dv, from, k) == Look(t.dv, from, k)
    requires Find(t1.routes, k) == Find(t.routes, k)
    ensures RelaxedAt(t, t', id, from, c, inPort, k)
  {
  }

  /** For each destination `i..count` the legacy relaxation leaves the
      result `RelaxedAt` describes, and nothing else changes. */
  lemma {:induction false} RelaxViaCosts(id: int, from: int, c: int, inPort: int, i: int, count: int, t: Tables)
    requires from != id
    ensures var t' := RelaxVia(id, from, c, inPort, i, count, t).0;
      && (forall k :: i <= k <= count ==> RelaxedAt(t, t', id, from, c, inPort, k))
      && (forall k :: (k < i || k > count) ==> Look(t'.dv, id, k) == Look(t.dv, id, k))
      && (forall k :: (k < i || k > count) ==> Find(t'.routes, k) == Find(t.routes, k))
      && NonOwnKept(t.dv, t'.dv, id)
    decreases count - i + 1
  {
    if i <= count {
      var t1 := RelaxOne(id, from, c, inPort, i, t).0;
      var t' := RelaxVia(id, from, c, inPort, i + 1, count, t1).0;
      assert t' == RelaxVia(id, from, c, inPort, i, count, t).0;
      RelaxViaCosts(id, from, c, inPort, i + 1, count, t1);
      assert RelaxedAt(t, t1, id, from, c, inPort, i);
      assert RelaxedAt(t, t', id, from, c, inPort, i);
      forall k | i + 1 <= k <= count
        ensures RelaxedAt(t, t', id, from, c, inPort, k)
      {
        assert Look(t1.dv, from, k) == Look(t.dv, from, k);
        RelaxedAtRebase(t, t1, t', id, from, c, inPort, k);
      }
    }
  }

  /** The flag is raised exactly when some destination `i..count` improved. */
  lemma {:induction false} RelaxViaFlag(id: int, from: int, c: int, inPort: int, i: int, count: int, t: Tables)
    requires from != id
    ensures RelaxVia(id, from, c, inPort, i, count, t).1 <==>
      exists k :: i <= k <= count && Improves(t.dv, id, from, c, k)
    decreases count - i + 1
  {
    if i <= count {
      var t1 := RelaxOne(id, from, c, inPort, i, t).0;
      RelaxViaFlag(id, from, c, inPort, i + 1, count, t1);
      forall k | i + 1 <= k <= count
        ensures Improves(t1.dv, id, from, c, k) == Improves(t.dv, id, from, c, k)
      {
        assert Look(t1.dv, from, k) == Look(t.dv, from, k);
        assert Look(t1.dv, id, k) == Look(t.dv, id, k);
      }
    }
  }

  function AcceptDv(r: Router, count: nat, inPort: int, payload: seq<Byte>): (res: (Router, bool))
    requires |payload| >= DvPayloadSize(count)
    ensures res.0.portCost == r.portCost && res.0.id == r.id
  {
    var from := AdvertiserOf(payload);
    var nbr := AddNeighbor(r.neighbors, inPort, from);
    var dv1 := StoreDv(r.dv, from, payload, count);
    var (t, renewed) := RelaxVia(r.id, from, CostOf(r.portCost, inPort), inPort, 1, count, Tables(dv1, r.routes));
    (r.(neighbors := nbr, dv := t.dv, routes := t.routes), renewed)
  }

  /** `handle_DV_message(packet, length, in_port)`. */
  function HandleDv(r: Router, reg: Registry, inPort: int, packet: seq<Byte>): (res: Result<Step>)
    requires CostOf(r.portCost, inPort) > 0 ==> DvReadable(packet, reg.routerCount)
    requires DvFits(reg.routerCount)
    ensures res.Ok? ==> res.value.registry == reg && res.value.verdict in {0, -1}
    ensures res.Err? <==> CostOf(r.portCost, inPort) <= 0
  {
    var count := reg.routerCount;
    if CostOf(r.portCost, inPort) <= 0 then Err(UpdateFromHostPort)
    else if AdvertiserOf(Payload(packet)) == -1 then
      var (r', out) := MakeDv(r, count, packet, false);
      Ok(Step(r', reg, 0, out))
    else
      var (r1, renewed) := AcceptDv(r, count, inPort, Payload(packet));
      if renewed then
        var (r2, out) := MakeDv(r1, count, packet, false);
        Ok(Step(r2, reg, 0, out))
      else Ok(Step(r1, reg, -1, packet))
  }

  /** A legacy DV message from another router on a router link: every own
      cost `1..count` becomes the smaller of the old cost and the
      advertised cost plus the link cost, the route moves to the arrival
      port exactly where that is strictly smaller, and the verdict is 0
      exactly when that happened for some destination. */
  lemma HandleDvRelaxes(r: Router, reg: Registry, inPort: int, packet: seq<Byte>)
    requires DvReadable(packet, reg.routerCount) && DvFits(reg.routerCount)
    requires CostOf(r.portCost, inPort) > 0
    requires AdvertiserOf(Payload(packet)) != -1 && AdvertiserOf(Payload(packet)) != r.id
    ensures var res := HandleDv(r, reg, inPort, packet);
      var payload := Payload(packet);
      var c := CostOf(r.portCost, inPort);
      && res.Ok?
      && var r' := res.value.router;
      && (forall k :: 1 <= k <= reg.routerCount ==> DvRelaxed(r, r'.dv, r'.routes, payload, c, inPort, k))
      && (res.value.verdict == 0 <==>
            exists k :: 1 <= k <= reg.routerCount && CellOr(r.dv, r.id, k, DvInf) > DvCostAt(payload, k) + c)
  {
    HandleDvCosts(r, reg, inPort, packet);
    HandleDvFlag(r, reg, inPort, packet);
  }

  /** The legacy relaxation never raises a cost: a destination routed
      through the arrival port keeps its old cost and route even when the
      advertiser now offers only a dearer path, so the table claims a cost
      no neighbour supports any longer. */
  lemma LegacyKeepsStaleCost(r: Router, reg: Registry, inPort: int, packet: seq<Byte>, k: int, w: int)
    requires DvReadable(packet, reg.routerCount) && DvFits(reg.routerCount)
    requires CostOf(r.portCost, inPort) > 0
    requires AdvertiserOf(Payload(packet)) != -1 && AdvertiserOf(Payload(packet)) != r.id
    requires 1 <= k <= reg.routerCount
    requires Find(r.routes, k) == Some(inPort) && Look(r.dv, r.id, k) == Some(w)
    requires w < DvCostAt(Payload(packet), k) + CostOf(r.portCost, inPort)
    ensures var r' := HandleDv(r, reg, inPort, packet).value.router;
      && Look(r'.dv, r.id, k) == Some(w)
      && Find(r'.routes, k) == Some(inPort)
  {
    HandleDvCosts(r, reg, inPort, packet);
    var r' := HandleDv(r, reg, inPort, packet).value.router;
    assert DvRelaxed(r, r'.dv, r'.routes, Payload(packet), CostOf(r.portCost, inPort), inPort, k);
  }

  lemma HandleDvCosts(r: Router, reg: Registry, inPort: int, packet: seq<Byte>)
    requires DvReadable(packet, reg.routerCount) && DvFits(reg.routerCount)
    requires CostOf(r.portCost, inPort) > 0
    requires AdvertiserOf(Payload(packet)) != -1 && AdvertiserOf(Payload(packet)) != r.id
    ensures var res := HandleDv(r, reg, inPort, packet);
      var payload := Payload(packet);
      var c := CostOf(r.portCost, inPort);
      && res.Ok?
      && var r' := res.value.router;
      forall k :: 1 <= k <= reg.routerCount ==> DvRelaxed(r, r'.dv, r'.routes, payload, c, inPort, k)
  {
    var count := reg.routerCount;
    var payload := Payload(packet);
    var c := CostOf(r.portCost, inPort);
    var r1 := AcceptDv(r, count, inPort, payload).0;
    AcceptDvRelaxes(r, count, inPort, payload);
    HandleDvAccepts(r, reg, inPort, packet);
    var r' := HandleDv(r, reg, inPort, packet).value.router;
    forall k | 1 <= k <= count
      ensures DvRelaxed(r, r'.dv, r'.routes, payload, c, inPort, k)
    {
      assert DvRelaxed(r, r1.dv, r1.routes, payload, c, inPort, k);
      assert Look(r'.dv, r.id, k) == Look(r1.dv, r.id, k);
    }
  }

  lemma HandleDvFlag(r: Router, reg: Registry, inPort: int, packet: seq<Byte>)
    requires DvReadable(packet, reg.routerCount) && DvFits(reg.routerCount)
    requires CostOf(r.portCost, inPort) > 0
    requires AdvertiserOf(Payload(packet)) != -1 && AdvertiserOf(Payload(packet)) != r.id
    ensures var res := HandleDv(r, reg, inPort, packet);
      && res.Ok?
      && (res.value.verdict == 0 <==>
            exists k :: 1 <= k <= reg.routerCount &&
              CellOr(r.dv, r.id, k, DvInf) > DvCostAt(Payload(packet), k) + CostOf(r.portCost, inPort))
  {
    AcceptDvFlag(r, reg.routerCount, inPort, Payload(packet));
    HandleDvAccepts(r, reg, inPort, packet);
  }

  /** Past the two early exits, the handler is `AcceptDv` followed, when
      something improved, by the router's own advertisement. */
  lemma HandleDvAccepts(r: Router, reg: Registry, inPort: int, packet: seq<Byte>)
    requires DvReadable(packet, reg.routerCount) && DvFits(reg.routerCount)
    requires CostOf(r.portCost, inPort) > 0
    requires AdvertiserOf(Payload(packet)) != -1 && AdvertiserOf(Payload(packet)) != r.id
    ensures var (r1, renewed) := AcceptDv(r, reg.routerCount, inPort, Payload(packet));
      var res := HandleDv(r, reg, inPort, packet);
      && res.Ok?
      && res.value.verdict == (if renewed then 0 else -1)
      && res.value.router.routes == r1.routes
      && res.value.router.dv == (if renewed then FillOwnRow(r1.dv, r.id, reg.routerCount) else r1.dv)
  {
  }

  /** Relaxing through the router itself changes nothing when the link
      cost is positive and every own cost is present: no cost beats itself
      plus a positive link cost. */
  lemma {:induction false} RelaxViaSelf(id: int, c: int, inPort: int, i: int, count: int, t: Tables)
    requires c > 0
    requires forall k :: i <= k <= count ==> Look(t.dv, id, k).Some?
    ensures RelaxVia(id, id, c, inPort, i, count, t) == (t, false)
    decreases count - i + 1
  {
    if i <= count {
      assert RelaxOne(id, id, c, inPort, i, t) == (t, false);
      RelaxViaSelf(id, c, inPort, i + 1, count, t);
    }
  }

  /** A legacy DV message that carries the receiver's own id, on a router
      link: the own row `1..count` is overwritten with the advertised
      costs, nothing is relaxed, and the verdict is -1 with the buffer
      untouched. */
  lemma HandleDvSelfAdvert(r: Router, reg: Registry, inPort: int, packet: seq<Byte>)
    requires DvReadable(packet, reg.routerCount) && DvFits(reg.routerCount)
    requires CostOf(r.portCost, inPort) > 0
    requires AdvertiserOf(Payload(packet)) == r.id && r.id != -1
    ensures var res := HandleDv(r, reg, inPort, packet);
      && res.Ok? && res.value.verdict == -1 && res.value.packet == packet
      && res.value.router.routes == r.routes
      && res.value.router.neighbors == AddNeighbor(r.neighbors, inPort, r.id)
      && forall i :: 1 <= i <= reg.routerCount ==>
           Look(res.value.router.dv, r.id, i) == Some(DvCostAt(Payload(packet), i))
  {
    var dv1 := StoreDv(r.dv, r.id, Payload(packet), reg.routerCount);
    RelaxViaSelf(r.id, CostOf(r.portCost, inPort), inPort, 1, reg.routerCount, Tables(dv1, r.routes));
  }

  /** Destination `k` after a legacy DV message from the router whose
      payload is `payload`, arriving on `inPort` with link cost `c`: the own
      cost is the smaller of the old one (`DV_INF` when missing) and the
      advertised cost plus `c`, and the route moves to `inPort` exactly
      when the latter is strictly smaller. */
  ghost predicate DvRelaxed(r: Router, dv: Table, routes: map<int, int>, payload: seq<Byte>, c: int,
                            inPort: int, k: int)
    requires 1 <= k && 5 * k + 4 <= |payload|
  {
    var was := CellOr(r.dv, r.id, k, DvInf);
    var offer := DvCostAt(payload, k) + c;
    && Look(dv, r.id, k) == Some(Min(was, offer))
    && Find(routes, k) == (if was > offer then Some(inPort) else Find(r.routes, k))
  }

  /** `AcceptDv` in terms of the payload: every own cost `1..count` is
      relaxed through the advertiser. */
  lemma AcceptDvRelaxes(r: Router, count: nat, inPort: int, payload: seq<Byte>)
    requires |payload| >= DvPayloadSize(count) && AdvertiserOf(payload) != r.id
    ensures var r1 := AcceptDv(r, count, inPort, payload).0;
      forall k :: 1 <= k <= count ==> DvRelaxed(r, r1.dv, r1.routes, payload, CostOf(r.portCost, inPort), inPort, k)
  {
    var from := AdvertiserOf(payload);
    var c := CostOf(r.portCost, inPort);
    var dv1 := StoreDv(r.dv, from, payload, count);
    var t0 := Tables(dv1, r.routes);
    var (t, renewed) := RelaxVia(r.id, from, c, inPort, 1, count, t0);
    assert AcceptDv(r, count, inPort, payload) ==
      (r.(neighbors := AddNeighbor(r.neighbors, inPort, from), dv := t.dv, routes := t.routes), renewed);
    RelaxViaCosts(r.id, from, c, inPort, 1, count, t0);
    forall k | 1 <= k <= count
      ensures DvRelaxed(r, t.dv, t.routes, payload, c, inPort, k)
    {
      RelaxedFromPayload(r, t0, t, from, c, inPort, payload, k);
    }
  }

  lemma RelaxedFromPayload(r: Router, t0: Tables, t: Tables, from: int, c: int, inPort: int,
                           payload: seq<Byte>, k: int)
    requires 1 <= k && 5 * k + 4 <= |payload|
    requires RelaxedAt(t0, t, r.id, from, c, inPort, k) && t0.routes == r.routes
    requires Look(t0.dv, r.id, k) == Look(r.dv, r.id, k) && Look(t0.dv, from, k) == Some(DvCostAt(payload, k))
    ensures DvRelaxed(r, t.dv, t.routes, payload, c, inPort, k)
  {
  }

  /** The flag `AcceptDv` yields is raised exactly when some own cost
      improved through the advertiser. */
  lemma AcceptDvFlag(r: Router, count: nat, inPort: int, payload: seq<Byte>)
    requires |payload| >= DvPayloadSize(count) && AdvertiserOf(payload) != r.id
    ensures AcceptDv(r, count, inPort, payload).1 <==>
      exists k :: 1 <= k <= count && CellOr(r.dv, r.id, k, DvInf) > DvCostAt(payload, k) + CostOf(r.portCost, inPort)
  {
    var from := AdvertiserOf(payload);
    var c := CostOf(r.portCost, inPort);
    var dv1 := StoreDv(r.dv, from, payload, count);
    var t0 := Tables(dv1, r.routes);
    var (t, renewed) := RelaxVia(r.id, from, c, inPort, 1, count, t0);
    assert AcceptDv(r, count, inPort, payload).1 == renewed;
    RelaxViaFlag(r.id, from, c, inPort, 1, count, t0);
    forall k | 1 <= k <= count
      ensures Improves(dv1, r.id, from, c, k) == (CellOr(r.dv, r.id, k, DvInf) > DvCostAt(payload, k) + c)
    {
      assert Look(dv1, r.id, k) == Look(r.dv, r.id, k);
      assert CellOr(dv1, from, k, 0) == DvCostAt(payload, k);
    }
  }

  function Min(a: int, b: int): int {
    if a <= b then a else b
  }
}
