/** Control messages (`handle_control_message`) and the per-packet
    dispatcher (`Router::router`). A control message's text payload is
    taken as already parsed into a `Command`. */
module ControlPlane {
  import opened Common
  import opened Bytes
  import opened Addresses
  import opened Wire
  import opened DistanceVector
  import opened RouterState
  import opened Advertising
  import opened DvHandlers
  import opened Forwarding

  /** A parsed control message: the subtype, then the fields the subtype
      reads (a port and a value for subtype 2, a port and an address for
      subtype 3, an address for subtypes 1, 5 and 6). */
  datatype Command = Command(kind: int, port: int, value: int, addr: Quad)

  const TriggerUpdate := 0
  const ReleaseLease := 1
  const PortChange := 2
  const AddHost := 3
  const BlockAddr := 5
  const UnblockAddr := 6

  /** The link value that reports a port as disconnected. */
  const Disconnected := -1

  /** The hosts attached to `port`. */
  function HostsOnPort(hostPort: map<Addr, int>, port: int): (hs: set<Addr>)
    ensures forall h :: h in hs <==> h in hostPort && hostPort[h] == port
  {
    set h | h in hostPort && hostPort[h] == port
  }

  /** The poisoned-reverse advertisement, or the legacy one. */
  function Advertise(r: Router, count: nat, packet: seq<Byte>, poisoned: bool): (res: (Router, seq<Byte>))
    requires DvpFits(count)
    ensures res.0 == r.(dv := FillOwnRow(r.dv, r.id, count))
  {
    assert DvFits(count);
    if poisoned then MakeDvp(r, count, packet, false) else MakeDv(r, count, packet, false)
  }

  /** Subtype 2 with value -1: the external port is ignored; a port with a
      host on it loses its first host (in address order) from both host
      maps; a router link gets cost `DV_INF`, forgets its neighbour, and
      the own row is recomputed with missing cells reading as 0. */
  function PortDown(r: Router, reg: Registry, port: int, packet: seq<Byte>, poisoned: bool): (s: Step)
    requires DvpFits(reg.routerCount)
    ensures s.verdict in {0, -1}
  {
    if port == r.extPort then Step(r, reg, -1, packet)
    else
      var hs := HostsOnPort(r.hostPort, port);
      if hs != {} then
        var h := LeastAddr(hs);
        Step(r.(hostPort := r.hostPort - {h}), reg.(hostOwner := reg.hostOwner - {h}), -1, packet)
      else
        var cost := r.portCost[port := DvInf];
        var nbr := r.neighbors - {port};
        var (t, _) := Recompute(ZeroAbsent, r.id, 1, reg.routerCount, nbr, cost, Tables(r.dv, r.routes));
        var r1 := r.(portCost := cost, neighbors := nbr, dv := t.dv, routes := t.routes);
        if poisoned then
          var (r2, out) := MakeDvp(r1, reg.routerCount, packet, false);
          Step(r2, reg, 0, out)
        else Step(r1, reg, -1, packet)
  }

  /** Subtype 2 with any other value: the port's cost becomes the value,
      the own row is recomputed, and the router advertises. */
  function SetPortCost(r: Router, reg: Registry, port: int, value: int, packet: seq<Byte>,
                       poisoned: bool): (s: Step)
    requires DvpFits(reg.routerCount)
    ensures s.verdict == 0 && s.registry == reg
  {
    var cost := r.portCost[port := value];
    var (t, _) := Recompute(SkipAbsent, r.id, 1, reg.routerCount, r.neighbors, cost, Tables(r.dv, r.routes));
    var r1 := r.(portCost := cost, dv := t.dv, routes := t.routes);
    var (r2, out) := Advertise(r1, reg.routerCount, packet, poisoned);
    Step(r2, reg, 0, out)
  }

  /** `handle_control_message(packet, length, poisoned)`. */
  function HandleControl(r: Router, reg: Registry, cmd: Command, packet: seq<Byte>, poisoned: bool): (res: Result<Step>)
    requires Advertises(cmd) ==> DvpFits(reg.routerCount)
    ensures res.Ok? ==> res.value.verdict in {0, -1}
  {
    var a := PackQuad(cmd.addr);
    if cmd.kind == TriggerUpdate then
      var (r', out) := Advertise(r, reg.routerCount, packet, poisoned);
      Ok(Step(r', reg, 0, out))
    else if cmd.kind == ReleaseLease then Ok(Step(Release(r, a), reg, -1, packet))
    else if cmd.kind == PortChange then
      if cmd.value == Disconnected then Ok(PortDown(r, reg, cmd.port, packet, poisoned))
      else Ok(SetPortCost(r, reg, cmd.port, cmd.value, packet, poisoned))
    else if cmd.kind == AddHost then
      Ok(Step(r.(hostPort := InsertNew(r.hostPort, a, cmd.port)),
              reg.(hostOwner := InsertNew(reg.hostOwner, a, r.id)), -1, packet))
    else if cmd.kind == BlockAddr then Ok(Step(r.(blocked := r.blocked + {a}), reg, -1, packet))
    else if cmd.kind == UnblockAddr then Ok(Step(r.(blocked := r.blocked - {a}), reg, -1, packet))
    else Err(UnknownControlSubtype)
  }

  /** The subtypes that may build an advertisement (0 and 2). */
  predicate Advertises(cmd: Command) {
    cmd.kind == TriggerUpdate || cmd.kind == PortChange
  }

  /** What the dispatcher needs of a packet: a whole header; when it is an
      advertisement or a control message that may send one, an
      advertisement that fits its local array; and a readable payload for
      an advertisement arriving on a router link. */
  predicate Routable(r: Router, inPort: int, packet: seq<Byte>, count: nat, cmd: Command) {
    && |packet| >= HeaderSize
    && (packet[8] == TypeDv ==> DvpFits(count))
    && (packet[8] == TypeDv && CostOf(r.portCost, inPort) > 0 ==> DvpReadable(packet, count))
    && (packet[8] == TypeControl && Advertises(cmd) ==> DvpFits(count))
  }

  /** `Router::router(in_port, packet)`: dispatch on the header's type;
      control messages arriving here always use poisoned reverse. */
  function Route(r: Router, reg: Registry, inPort: int, packet: seq<Byte>, cmd: Command): (res: Result<Step>)
    requires Routable(r, inPort, packet, reg.routerCount, cmd)
    ensures res.Ok? ==> res.value.registry.routerCount == reg.routerCount
  {
    var kind := DecodeHeader(packet).kind;
    if kind == TypeDv then HandleDvp(r, reg, inPort, packet)
    else if kind == TypeData then HandleData(r, reg, inPort, packet)
    else if kind == TypeControl then HandleControl(r, reg, cmd, packet, true)
    else Err(UnknownPacketType)
  }

  /** `out` is a poisoned-reverse advertisement of `r`'s own row: its
      advertiser is `r`'s id and entry `i` holds the own cost to `i`
      (missing cells read as 0) and the neighbour id of its next hop. */
  predicate ReportsOwnRow(r: Router, count: nat, out: seq<Byte>) {
    && |out| >= HeaderSize + DvpPayloadSize(count)
    && AdvertiserOf(Payload(out)) == Wrap32(r.id)
    && forall i :: 1 <= i <= count ==>
         && DvpCostAt(Payload(out), i) == Wrap32(CellOr(r.dv, r.id, i, 0))
         && DvpNextHopAt(Payload(out), i) == Wrap32(NextHopOf(r, i))
  }

  /** `out` is a legacy advertisement of `r`'s own costs. */
  predicate ReportsOwnCosts(r: Router, count: nat, out: seq<Byte>) {
    && |out| >= HeaderSize + DvPayloadSize(count)
    && AdvertiserOf(Payload(out)) == Wrap32(r.id)
    && forall i :: 1 <= i <= count ==> DvCostAt(Payload(out), i) == Wrap32(CellOr(r.dv, r.id, i, 0))
  }

  /** A poisoned-reverse advertisement reports the own row it was built
      from. */
  lemma MakeDvpReports(r: Router, count: nat, packet: seq<Byte>)
    requires DvpFits(count)
    ensures ReportsOwnRow(MakeDvp(r, count, packet, false).0, count, MakeDvp(r, count, packet, false).1)
  {
    MakeDvpReadBack(r, count, packet, false);
  }

  /** A legacy advertisement reports the own costs it was built from. */
  lemma MakeDvReports(r: Router, count: nat, packet: seq<Byte>)
    requires DvFits(count)
    ensures ReportsOwnCosts(MakeDv(r, count, packet, false).0, count, MakeDv(r, count, packet, false).1)
  {
    MakeDvReadBack(r, count, packet, false);
  }

  // ---------------------------------------------------------------------
  // Properties

  /** The dispatcher fails exactly on a type other than DV, DATA and
      CONTROL, or when the handler it picks fails; it hands every packet
      to the handler its type names. */
  lemma RouteDispatch(r: Router, reg: Registry, inPort: int, packet: seq<Byte>, cmd: Command)
    requires Routable(r, inPort, packet, reg.routerCount, cmd)
    ensures var kind := packet[8];
      var res := Route(r, reg, inPort, packet, cmd);
      && (kind !in {TypeDv, TypeData, TypeControl} <==> res == Err(UnknownPacketType))
      && (kind == TypeDv ==> res == HandleDvp(r, reg, inPort, packet))
      && (kind == TypeData ==> res == HandleData(r, reg, inPort, packet))
      && (kind == TypeControl ==> res == HandleControl(r, reg, cmd, packet, true))
  {
    var res := Route(r, reg, inPort, packet, cmd);
    assert DecodeHeader(packet).kind == packet[8];
    if packet[8] in {TypeDv, TypeData, TypeControl} {
      assert res != Err(UnknownPacketType) by {
        if packet[8] == TypeDv {
          HandleDvpRefusesHostPorts(r, reg, inPort, packet);
        } else if packet[8] == TypeControl {
          ControlFaults(r, reg, cmd, packet, true);
        }
      }
    }
  }

  /** A control message fails exactly when its subtype is none of 0, 1, 2,
      3, 5 and 6. */
  lemma ControlFaults(r: Router, reg: Registry, cmd: Command, packet: seq<Byte>, poisoned: bool)
    requires Advertises(cmd) ==> DvpFits(reg.routerCount)
    ensures var res := HandleControl(r, reg, cmd, packet, poisoned);
      && (res.Err? <==> cmd.kind !in {0, 1, 2, 3, 5, 6})
      && (res.Err? ==> res.fault == UnknownControlSubtype)
  {
  }

  /** Subtype 0 sends the router's own advertisement and changes no route,
      neighbour, cost or present table cell. */
  lemma TriggerAdvertises(r: Router, reg: Registry, cmd: Command, packet: seq<Byte>)
    requires DvpFits(reg.routerCount) && cmd.kind == TriggerUpdate
    ensures var res := HandleControl(r, reg, cmd, packet, true);
      && res.Ok? && res.value.verdict == 0 && res.value.registry == reg
      && var r' := res.value.router;
      && r'.routes == r.routes && r'.neighbors == r.neighbors && r'.portCost == r.portCost
      && (forall q, k :: Look(r.dv, q, k).Some? ==> Look(r'.dv, q, k) == Look(r.dv, q, k))
      && AdvertiserOf(Payload(res.value.packet)) == Wrap32(r.id)
      && forall i :: 1 <= i <= reg.routerCount ==>
           && DvpCostAt(Payload(res.value.packet), i) == Wrap32(CellOr(r'.dv, r.id, i, 0))
           && DvpNextHopAt(Payload(res.value.packet), i) == Wrap32(NextHopOf(r, i))
  {
    MakeDvpReadBack(r, reg.routerCount, packet, false);
  }

  /** Blocking an address makes the router drop every data packet from it,
      whatever its destination and port, without any other effect. */
  lemma BlockThenDrop(r: Router, reg: Registry, cmd: Command, packet: seq<Byte>, inPort: int)
    requires cmd.kind == BlockAddr
    requires |packet| >= HeaderSize && DecodeHeader(packet).src == PackQuad(cmd.addr)
    ensures var s := HandleControl(r, reg, cmd, packet, true).value;
      && s.verdict == -1 && s.packet == packet
      && s.router.blocked == r.blocked + {PackQuad(cmd.addr)}
      && s.router == r.(blocked := s.router.blocked) && s.registry == reg
      && HandleData(s.router, s.registry, inPort, packet) == Ok(Step(s.router, reg, -1, packet))
  {
  }

  /** Subtype 6 removes the address from the blocked set, if it is there,
      and changes nothing else. */
  lemma UnblockCommand(r: Router, reg: Registry, cmd: Command, packet: seq<Byte>)
    requires cmd.kind == UnblockAddr
    ensures var a := PackQuad(cmd.addr);
      var res := HandleControl(r, reg, cmd, packet, true);
      && res.Ok? && res.value.verdict == -1 && res.value.packet == packet
      && res.value.registry == reg
      && (forall x :: x in res.value.router.blocked <==> x in r.blocked && x != a)
      && res.value.router == r.(blocked := res.value.router.blocked)
      && (a !in r.blocked ==> res.value.router == r)
  {
  }

  /** Unblocking undoes blocking an address that was not blocked before. */
  lemma UnblockUndoesBlock(r: Router, reg: Registry, cmd: Command, packet: seq<Byte>)
    requires cmd.kind == BlockAddr
    requires PackQuad(cmd.addr) !in r.blocked
    ensures var s := HandleControl(r, reg, cmd, packet, true).value;
      HandleControl(s.router, s.registry, cmd.(kind := UnblockAddr), packet, true).value.router == r
  {
    var s := HandleControl(r, reg, cmd, packet, true).value;
    assert s.router.blocked - {PackQuad(cmd.addr)} == r.blocked;
  }

  /** Subtype 1 gives the host's leased address back to the pool and keeps
      the NAT invariant; releasing a host without a lease changes nothing. */
  lemma ReleaseCommand(r: Router, reg: Registry, cmd: Command, packet: seq<Byte>)
    requires cmd.kind == ReleaseLease && NatInv(r)
    ensures var host := PackQuad(cmd.addr);
      var s := HandleControl(r, reg, cmd, packet, true).value;
      && s.verdict == -1 && s.registry == reg
      && host !in s.router.leases
      && (host in r.leases ==> r.leases[host] in s.router.pool)
      && (host !in r.leases ==> s.router == r)
      && NatInv(s.router) && PublicAddresses(s.router) == PublicAddresses(r)
  {
    ReleasePreservesNat(r, PackQuad(cmd.addr));
  }

  /** A host added on a port of this router (and not known before) is
      where data for it is delivered: on that port, with the packet
      unchanged, when the traffic is outbound and not blocked. */
  lemma AddHostThenDeliver(r: Router, reg: Registry, cmd: Command, packet: seq<Byte>, inPort: int)
    requires cmd.kind == AddHost
    requires PackQuad(cmd.addr) !in reg.hostOwner && PackQuad(cmd.addr) !in r.hostPort
    requires |packet| >= HeaderSize && DecodeHeader(packet).dst == PackQuad(cmd.addr)
    requires DecodeHeader(packet).src !in r.blocked && !Inbound(r, reg, DecodeHeader(packet).src)
    ensures var r' := r.(hostPort := r.hostPort[PackQuad(cmd.addr) := cmd.port]);
      var reg' := reg.(hostOwner := reg.hostOwner[PackQuad(cmd.addr) := r.id]);
      && HandleControl(r, reg, cmd, packet, true) == Ok(Step(r', reg', -1, packet))
      && HandleData(r', reg', inPort, packet) == Ok(Step(r', reg', cmd.port, packet))
  {
    var a := PackQuad(cmd.addr);
    var r' := r.(hostPort := r.hostPort[a := cmd.port]);
    var reg' := reg.(hostOwner := reg.hostOwner[a := r.id]);
    AddHostCommand(r, reg, cmd, packet);
    assert InsertNew(r.hostPort, a, cmd.port) == r'.hostPort;
    assert InsertNew(reg.hostOwner, a, r.id) == reg'.hostOwner;
    DeliverToOwnHost(r', reg', inPort, packet);
  }

  /** Subtype 3 registers the host with this router and its port; a host
      either map already knows keeps its entry there. No other host entry
      and nothing else changes. */
  lemma AddHostCommand(r: Router, reg: Registry, cmd: Command, packet: seq<Byte>)
    requires cmd.kind == AddHost
    ensures var a := PackQuad(cmd.addr);
      var res := HandleControl(r, reg, cmd, packet, true);
      && res.Ok? && res.value.verdict == -1 && res.value.packet == packet
      && var hp := res.value.router.hostPort;
      && var ho := res.value.registry.hostOwner;
      && a in hp && hp[a] == (if a in r.hostPort then r.hostPort[a] else cmd.port)
      && a in ho && ho[a] == (if a in reg.hostOwner then reg.hostOwner[a] else r.id)
      && (forall x :: x != a ==> (x in hp <==> x in r.hostPort) && (x in hp ==> hp[x] == r.hostPort[x]))
      && (forall x :: x != a ==> (x in ho <==> x in reg.hostOwner) && (x in ho ==> ho[x] == reg.hostOwner[x]))
      && res.value.router == r.(hostPort := hp)
      && res.value.registry == reg.(hostOwner := ho)
  {
  }

  /** Data for a host attached to this router leaves on its port. */
  lemma DeliverToOwnHost(r: Router, reg: Registry, inPort: int, packet: seq<Byte>)
    requires |packet| >= HeaderSize
    requires DecodeHeader(packet).src !in r.blocked && !Inbound(r, reg, DecodeHeader(packet).src)
    requires var dst := DecodeHeader(packet).dst;
      dst in reg.hostOwner && reg.hostOwner[dst] == r.id && dst in r.hostPort
    ensures HandleData(r, reg, inPort, packet) == Ok(Step(r, reg, r.hostPort[DecodeHeader(packet).dst], packet))
  {
  }

  /** Subtype 2, value -1, on the external port changes nothing. */
  lemma PortDownExternalIgnored(r: Router, reg: Registry, cmd: Command, packet: seq<Byte>, poisoned: bool)
    requires DvpFits(reg.routerCount) && cmd.kind == PortChange && cmd.value == Disconnected
    requires cmd.port == r.extPort
    ensures HandleControl(r, reg, cmd, packet, poisoned) == Ok(Step(r, reg, -1, packet))
  {
  }

  /** Subtype 2, value -1, on a port with hosts: the first host on the port
      is forgotten by both host maps, and nothing else changes. */
  lemma PortDownDetachesHost(r: Router, reg: Registry, cmd: Command, packet: seq<Byte>)
    requires DvpFits(reg.routerCount) && cmd.kind == PortChange && cmd.value == Disconnected
    requires cmd.port != r.extPort && HostsOnPort(r.hostPort, cmd.port) != {}
    ensures var s := HandleControl(r, reg, cmd, packet, true).value;
      && s.verdict == -1 && s.packet == packet
      && exists h :: (
           && h in r.hostPort && r.hostPort[h] == cmd.port
           && (forall x :: x in r.hostPort && r.hostPort[x] == cmd.port ==> h <= x)
           && s.router == r.(hostPort := r.hostPort - {h})
           && s.registry == reg.(hostOwner := reg.hostOwner - {h}))
  {
    var h := LeastAddr(HostsOnPort(r.hostPort, cmd.port));
    assert h in HostsOnPort(r.hostPort, cmd.port);
  }

  /** After a link failure on a router link, the port costs `DV_INF` and
      its neighbour is forgotten; nothing but the port's cost, the
      neighbours and the tables changes. With poisoned reverse the router
      answers 0 with its recomputed own row and next hops over the
      remaining neighbours; without it, -1 and nothing is sent. */
  lemma PortDownAdvertises(r: Router, reg: Registry, cmd: Command, packet: seq<Byte>, poisoned: bool)
    requires DvpFits(reg.routerCount) && cmd.kind == PortChange && cmd.value == Disconnected
    requires cmd.port != r.extPort && HostsOnPort(r.hostPort, cmd.port) == {}
    ensures var res := HandleControl(r, reg, cmd, packet, poisoned);
      && res.Ok? && res.value.registry == reg
      && var r' := res.value.router;
      && r' == r.(portCost := r'.portCost, neighbors := r'.neighbors, dv := r'.dv, routes := r'.routes)
      && CostOf(r'.portCost, cmd.port) == DvInf
      && r'.neighbors == r.neighbors - {cmd.port}
      && (forall p :: p != cmd.port ==> CostOf(r'.portCost, p) == CostOf(r.portCost, p))
      && (!poisoned ==> res.value.verdict == -1 && res.value.packet == packet)
      && (poisoned ==> res.value.verdict == 0 && ReportsOwnRow(r', reg.routerCount, res.value.packet))
  {
    var count := reg.routerCount;
    var cost := r.portCost[cmd.port := DvInf];
    var nbr := r.neighbors - {cmd.port};
    var (t, _) := Recompute(ZeroAbsent, r.id, 1, count, nbr, cost, Tables(r.dv, r.routes));
    var r1 := r.(portCost := cost, neighbors := nbr, dv := t.dv, routes := t.routes);
    assert HandleControl(r, reg, cmd, packet, poisoned) == Ok(PortDown(r, reg, cmd.port, packet, poisoned));
    if poisoned {
      MakeDvpReports(r1, count, packet);
    }
  }

  /** After a link failure on a router link, the port costs `DV_INF`, its
      neighbour is forgotten, and (given complete neighbour rows) every
      destination satisfies the Bellman-Ford relation over the remaining
      neighbours; the router advertises exactly when poisoned reverse is
      in use. */
  lemma PortDownReroutes(r: Router, reg: Registry, cmd: Command, packet: seq<Byte>, poisoned: bool)
    requires DvpFits(reg.routerCount) && cmd.kind == PortChange && cmd.value == Disconnected
    requires cmd.port != r.extPort && HostsOnPort(r.hostPort, cmd.port) == {}
    requires NeighborsReady(r, reg.routerCount)
    ensures var s := HandleControl(r, reg, cmd, packet, poisoned).value;
      var r' := s.router;
      && s.registry == reg
      && (s.verdict == 0 <==> poisoned)
      && CostOf(r'.portCost, cmd.port) == DvInf
      && r'.neighbors == r.neighbors - {cmd.port}
      && NeighborsReady(r', reg.routerCount)
      && forall k :: 1 <= k <= reg.routerCount && k != r.id ==>
           BestRoute(Tables(r'.dv, r'.routes), r.routes, r.id, k, r'.neighbors, r'.portCost)
  {
    var count := reg.routerCount;
    var cost := r.portCost[cmd.port := DvInf];
    var nbr := r.neighbors - {cmd.port};
    var t0 := Tables(r.dv, r.routes);
    assert RowsComplete(r.dv, r.id, nbr, count);
    var (t, _) := Recompute(ZeroAbsent, r.id, 1, count, nbr, cost, t0);
    RecomputeBest(ZeroAbsent, r.id, 1, count, nbr, cost, t0);
    RecomputeFrame(ZeroAbsent, r.id, 1, count, nbr, cost, t0);
    RowsCompleteKept(r.dv, t.dv, r.id, nbr, count);
    var s := HandleControl(r, reg, cmd, packet, poisoned).value;
    var r' := s.router;
    assert NonOwnKept(t.dv, r'.dv, r.id);
    RowsCompleteKept(t.dv, r'.dv, r.id, nbr, count);
    forall k | 1 <= k <= count && k != r.id
      ensures BestRoute(Tables(r'.dv, r'.routes), r.routes, r.id, k, nbr, cost)
    {
      assert Look(r'.dv, r.id, k) == Look(t.dv, r.id, k);
      BestRouteKept(t, Tables(r'.dv, r'.routes), r.routes, r.id, k, nbr, cost);
    }
  }

  /** After a cost change, only the port's cost and the tables change,
      and the router sends its recomputed own row: with next hops under
      poisoned reverse, as bare costs otherwise. */
  lemma SetCostAdvertises(r: Router, reg: Registry, cmd: Command, packet: seq<Byte>, poisoned: bool)
    requires DvpFits(reg.routerCount) && cmd.kind == PortChange && cmd.value != Disconnected
    ensures var res := HandleControl(r, reg, cmd, packet, poisoned);
      && res.Ok? && res.value.registry == reg && res.value.verdict == 0
      && var r' := res.value.router;
      && r' == r.(portCost := r'.portCost, dv := r'.dv, routes := r'.routes)
      && CostOf(r'.portCost, cmd.port) == cmd.value
      && (forall p :: p != cmd.port ==> CostOf(r'.portCost, p) == CostOf(r.portCost, p))
      && (poisoned ==> ReportsOwnRow(r', reg.routerCount, res.value.packet))
      && (!poisoned ==> ReportsOwnCosts(r', reg.routerCount, res.value.packet))
  {
    var count := reg.routerCount;
    var cost := r.portCost[cmd.port := cmd.value];
    var (t, _) := Recompute(SkipAbsent, r.id, 1, count, r.neighbors, cost, Tables(r.dv, r.routes));
    var r1 := r.(portCost := cost, dv := t.dv, routes := t.routes);
    assert HandleControl(r, reg, cmd, packet, poisoned)
        == Ok(SetPortCost(r, reg, cmd.port, cmd.value, packet, poisoned));
    assert DvFits(count);
    if poisoned {
      MakeDvpReports(r1, count, packet);
    } else {
      MakeDvReports(r1, count, packet);
    }
  }

  /** After a cost change, the port has the new cost, the router
      advertises, and (given complete neighbour rows) every destination
      satisfies the Bellman-Ford relation under the new costs. */
  lemma SetCostReroutes(r: Router, reg: Registry, cmd: Command, packet: seq<Byte>, poisoned: bool)
    requires DvpFits(reg.routerCount) && cmd.kind == PortChange && cmd.value != Disconnected
    requires NeighborsReady(r, reg.routerCount)
    ensures var s := HandleControl(r, reg, cmd, packet, poisoned).value;
      var r' := s.router;
      && s.verdict == 0 && s.registry == reg
      && CostOf(r'.portCost, cmd.port) == cmd.value
      && r'.neighbors == r.neighbors
      && NeighborsReady(r', reg.routerCount)
      && forall k :: 1 <= k <= reg.routerCount && k != r.id ==>
           BestRoute(Tables(r'.dv, r'.routes), r.routes, r.id, k, r'.neighbors, r'.portCost)
  {
    var count := reg.routerCount;
    var cost := r.portCost[cmd.port := cmd.value];
    var t0 := Tables(r.dv, r.routes);
    var (t, _) := Recompute(SkipAbsent, r.id, 1, count, r.neighbors, cost, t0);
    RecomputeBest(SkipAbsent, r.id, 1, count, r.neighbors, cost, t0);
    RecomputeFrame(SkipAbsent, r.id, 1, count, r.neighbors, cost, t0);
    RowsCompleteKept(r.dv, t.dv, r.id, r.neighbors, count);
    var s := HandleControl(r, reg, cmd, packet, poisoned).value;
    var r' := s.router;
    assert NonOwnKept(t.dv, r'.dv, r.id);
    RowsCompleteKept(t.dv, r'.dv, r.id, r.neighbors, count);
    forall k | 1 <= k <= count && k != r.id
      ensures BestRoute(Tables(r'.dv, r'.routes), r.routes, r.id, k, r.neighbors, cost)
    {
      assert Look(r'.dv, r.id, k) == Look(t.dv, r.id, k);
      BestRouteKept(t, Tables(r'.dv, r'.routes), r.routes, r.id, k, r.neighbors, cost);
    }
  }
}
