/** The state of one router node, the two process-wide registries it shares
    with every other node, and how both are created and initialised
    (`create_router_object`, the `Router` constructor and `router_init`). */
module RouterState {
  import opened Common
  import opened Addresses
  import opened DistanceVector

  /** One router node.
      - `routes`: destination router id to egress port (`routeraim_to_port`);
      - `dv`: the distance-vector table, the router's own row and the rows
        its neighbours last advertised (`DV_table`);
      - `neighbors`: port to the router on its far end (`port_to_routernear`);
      - `portCost`: the link cost of each port (`port_to_cost`);
      - `hostPort`: directly attached hosts and their ports (`hosts_to_port`);
      - `leases`: internal host address to leased public address (`NAT_table`);
      - `extPort`: the port facing the external network, 0 for none;
      - `pool`: public addresses still free to lease (`available_ip`);
      - `blocked`: source addresses whose data packets are dropped. */
  datatype Router = Router(
    id: int,
    routes: map<int, int>,
    dv: Table,
    neighbors: map<int, int>,
    portCost: map<int, int>,
    hostPort: map<Addr, int>,
    leases: map<Addr, Addr>,
    extPort: int,
    pool: set<Addr>,
    blocked: set<Addr>)

  /** The globals every router reads and writes: how many routers exist
      (`router_count`), which router each host is attached to
      (`hostip_to_routerid`) and which gateway owns each external address
      (`extip_to_routerid`). */
  datatype Registry = Registry(routerCount: nat, hostOwner: map<Addr, int>, extOwner: map<Addr, int>)

  /** The exceptions the router throws, plus the failing `assert` and the
      failing `map::at` of the data path. */
  datatype Fault =
    | UnknownPacketType      // router(): a header type other than DV, DATA, CONTROL
    | UnknownControlSubtype  // handle_control_message(): the default case
    | UpdateFromHostPort     // a DV message on a port whose cost is not positive
    | IngressOffExternalPort // traffic from an owned external address on another port
    | HostPortMissing        // a host registered to this router without a port
    | PrefixOutOfRange       // s2ipv4_with_mask(): the assertion on the prefix length

  datatype Result<T> = Ok(value: T) | Err(fault: Fault)

  /** What handling one packet produces: the new router and registries, the
      verdict (an egress port, 0 to broadcast, -1 to drop) and the packet
      buffer as left behind (rewritten addresses or an advertisement). */
  datatype Step = Step(router: Router, registry: Registry, verdict: int, packet: seq<Bytes.Byte>)

  /** `new Router(rt)`: the route to itself leaves through port 0, and ports
      0 and 1 cost 0. The external port is not set until `router_init`; it
      is taken to be 0 here. */
  function NewRouter(id: int): (r: Router)
    ensures r.id == id
    ensures Find(r.routes, id) == Some(0) && r.routes.Keys == {id}
    ensures CostOf(r.portCost, 0) == 0 && CostOf(r.portCost, 1) == 0
    ensures r.dv == map[] && r.neighbors == map[] && r.leases == map[] && r.pool == {}
  {
    Router(id, map[id := 0], map[], map[], map[0 := 0, 1 := 0], map[], map[], 0, {}, {})
  }

  /** `create_router_object`: one more router, numbered from 1. */
  function CreateRouter(reg: Registry): (res: (Router, Registry))
    ensures res.1.routerCount == reg.routerCount + 1
    ensures res.0.id == res.1.routerCount
    ensures res.1.hostOwner == reg.hostOwner && res.1.extOwner == reg.extOwner
  {
    var reg' := reg.(routerCount := reg.routerCount + 1);
    (NewRouter(reg'.routerCount), reg')
  }

  /** `extip_to_routerid.insert(...)` for every address of a block: an
      address that already has an owner keeps it. */
  function RegisterBlock(owner: map<Addr, int>, block: set<Addr>, id: int): (owner': map<Addr, int>)
    ensures owner'.Keys == owner.Keys + block
    ensures forall a :: a in owner ==> owner'[a] == owner[a]
    ensures forall a :: a in block && a !in owner ==> owner'[a] == id
  {
    map a | a in owner.Keys + block :: if a in owner then owner[a] else id
  }

  /** `port_to_cost[p] = DV_INF` for `p` in `1..port_num`. */
  function InitPortCosts(cost: map<int, int>, portNum: int): (cost': map<int, int>)
    ensures forall p :: 1 <= p <= portNum ==> Find(cost', p) == Some(DvInf)
    ensures forall p :: (p < 1 || p > portNum) ==> Find(cost', p) == Find(cost, p)
  {
    map p | p in cost.Keys + Span(1, portNum) :: if 1 <= p <= portNum then DvInf else cost[p]
  }

  /** The own row after `router_init`: 0 to itself and `DV_INF` to every
      other router in `1..count`. The row is only created when the loop runs. */
  function InitOwnRow(dv: Table, id: int, count: int): (dv': Table)
    ensures forall i :: 1 <= i <= count ==> Look(dv', id, i) == Some(if i == id then 0 else DvInf)
    ensures forall r, i :: (r != id || i < 1 || i > count) ==> Look(dv', r, i) == Look(dv, r, i)
    ensures dv'.Keys == if count >= 1 then dv.Keys + {id} else dv.Keys
  {
    if count < 1 then dv
    else
      var row := RowOf(dv, id);
      dv[id := map i | i in row.Keys + Span(1, count) :: if 1 <= i <= count then (if i == id then 0 else DvInf) else row[i]]
  }

  /** The prefix lengths `s2ipv4_with_mask` asserts: `0..32`. The prefix is
      read with `%u`, so a negative one reads as a huge unsigned value and
      fails the assertion too. */
  predicate PrefixInRange(c: Cidr) {
    0 <= c.prefix <= 32
  }

  /** The CIDR strings are only parsed on a gateway, the available block
      first. A prefix of 0 passes the assertion but makes the mask shift by
      32, which C++ leaves undefined; that is the one case excluded. */
  predicate InitArgsValid(externalPort: int, external: Cidr, available: Cidr) {
    externalPort != 0 ==>
      && available.prefix != 0
      && (PrefixInRange(available) ==> external.prefix != 0)
  }

  /** `router_init(port_num, external_port, external_addr, available_addr)`;
      a failed prefix assertion aborts the program. */
  function Init(r: Router, reg: Registry, portNum: int, externalPort: int, external: Cidr,
                available: Cidr): (res: Result<(Router, Registry)>)
    requires InitArgsValid(externalPort, external, available)
  {
    if externalPort != 0 && !(PrefixInRange(available) && PrefixInRange(external)) then
      Err(PrefixOutOfRange)
    else Ok(Initialised(r, reg, portNum, externalPort, external, available))
  }

  /** The state `router_init` leaves once the prefixes have passed. */
  function Initialised(r: Router, reg: Registry, portNum: int, externalPort: int, external: Cidr,
                       available: Cidr): (res: (Router, Registry))
    requires externalPort != 0 ==> ValidPrefix(available) && ValidPrefix(external)
  {
    var pool := if externalPort != 0 then r.pool + Block(available) else r.pool;
    var extOwner := if externalPort != 0 then RegisterBlock(reg.extOwner, Block(external), r.id)
                    else reg.extOwner;
    (r.(extPort := externalPort, pool := pool,
        portCost := InitPortCosts(r.portCost, portNum),
        dv := InitOwnRow(r.dv, r.id, reg.routerCount)),
     reg.(extOwner := extOwner))
  }

  /** What a successful `router_init` promises of the NAT state: on a
      gateway the pool gains exactly the addresses of the available block,
      `2^(32 - prefix)` of them, and every address of the external block
      that had no owner is assigned to this router; on any other router
      neither changes. */
  ghost predicate InitPoolEffect(r: Router, reg: Registry, externalPort: int, external: Cidr,
                                 available: Cidr, r': Router, reg': Registry)
    requires externalPort != 0 ==> ValidPrefix(available) && ValidPrefix(external)
  {
    && (externalPort != 0 ==>
          && |Block(available)| == Pow2(32 - available.prefix)
          && (forall x: Addr :: x in r'.pool <==> x in r.pool || InBlock(x, available))
          && reg'.extOwner.Keys == reg.extOwner.Keys + Block(external)
          && (forall x: Addr :: InBlock(x, external) ==> x in reg'.extOwner)
          && (forall x: Addr :: x in reg'.extOwner ==>
                reg'.extOwner[x] == if x in reg.extOwner then reg.extOwner[x] else r.id))
    && (externalPort == 0 ==> r'.pool == r.pool && reg'.extOwner == reg.extOwner)
  }

  /** What a successful `router_init` promises of the routing state: ports
      `1..port_num` cost `DV_INF`, the own row is 0 to itself and `DV_INF`
      to every other router, and nothing else changes. */
  ghost predicate InitTableEffect(r: Router, reg: Registry, portNum: int, externalPort: int,
                                  r': Router, reg': Registry)
  {
    && r'.extPort == externalPort
    && (forall p :: 1 <= p <= portNum ==> CostOf(r'.portCost, p) == DvInf)
    && (forall p :: (p < 1 || p > portNum) ==> CostOf(r'.portCost, p) == CostOf(r.portCost, p))
    && (forall i :: 1 <= i <= reg.routerCount ==>
          Look(r'.dv, r.id, i) == Some(if i == r.id then 0 else DvInf))
    && (forall q, i :: q != r.id ==> Look(r'.dv, q, i) == Look(r.dv, q, i))
    && r'.routes == r.routes && r'.neighbors == r.neighbors && r'.leases == r.leases
    && r'.hostPort == r.hostPort && r'.blocked == r.blocked && r'.id == r.id
    && reg'.hostOwner == reg.hostOwner && reg'.routerCount == reg.routerCount
  }

  /** Once the prefixes have passed, `router_init` fills the pool and the
      external owners as promised. */
  lemma InitialisedPool(r: Router, reg: Registry, portNum: int, externalPort: int, external: Cidr,
                        available: Cidr)
    requires externalPort != 0 ==> ValidPrefix(available) && ValidPrefix(external)
    ensures var res := Initialised(r, reg, portNum, externalPort, external, available);
      InitPoolEffect(r, reg, externalPort, external, available, res.0, res.1)
  {
    if externalPort != 0 {
      BlockCardinality(available);
      BlockMembers(available);
      BlockMembers(external);
    }
  }

  /** Once the prefixes have passed, `router_init` sets the port costs and
      the own row as promised. */
  lemma InitialisedTables(r: Router, reg: Registry, portNum: int, externalPort: int, external: Cidr,
                          available: Cidr)
    requires externalPort != 0 ==> ValidPrefix(available) && ValidPrefix(external)
    ensures var res := Initialised(r, reg, portNum, externalPort, external, available);
      InitTableEffect(r, reg, portNum, externalPort, res.0, res.1)
  {
    var r' := Initialised(r, reg, portNum, externalPort, external, available).0;
    forall p | 1 <= p <= portNum
      ensures CostOf(r'.portCost, p) == DvInf
    {
      assert Find(r'.portCost, p) == Some(DvInf);
    }
  }

  /** `router_init` fails exactly on a gateway whose available or external
      prefix lies outside `0..32`, and otherwise has its effect. */
  lemma InitSpec(r: Router, reg: Registry, portNum: int, externalPort: int, external: Cidr, available: Cidr)
    requires InitArgsValid(externalPort, external, available)
    ensures var res := Init(r, reg, portNum, externalPort, external, available);
      && (res.Err? <==> externalPort != 0 && (!PrefixInRange(available) || !PrefixInRange(external)))
      && (res.Err? ==> res.fault == PrefixOutOfRange)
    ensures var res := Init(r, reg, portNum, externalPort, external, available);
      res.Ok? ==>
      && (externalPort != 0 ==> ValidPrefix(available) && ValidPrefix(external))
      && InitPoolEffect(r, reg, externalPort, external, available, res.value.0, res.value.1)
      && InitTableEffect(r, reg, portNum, externalPort, res.value.0, res.value.1)
  {
    if !(externalPort != 0 && !(PrefixInRange(available) && PrefixInRange(external))) {
      InitialisedPool(r, reg, portNum, externalPort, external, available);
      InitialisedTables(r, reg, portNum, externalPort, external, available);
    }
  }

  // ---------------------------------------------------------------------
  // Invariants

  /** The leases are one-to-one and no leased address is still in the pool. */
  ghost predicate NatInv(r: Router) {
    && (forall h1, h2 :: h1 in r.leases && h2 in r.leases && h1 != h2 ==> r.leases[h1] != r.leases[h2])
    && (forall h :: h in r.leases ==> r.leases[h] !in r.pool)
  }

  /** The public addresses the gateway manages: free or leased. */
  function PublicAddresses(r: Router): set<Addr> {
    r.pool + r.leases.Values
  }

  /** Every neighbour is another router whose advertised row covers every
      destination `1..count`; under this the recomputation is exactly
      Bellman-Ford. */
  ghost predicate NeighborsReady(r: Router, count: int) {
    RowsComplete(r.dv, r.id, r.neighbors, count)
  }

  /** A router fresh from `create_router_object` and `router_init`: it
      reaches itself through port 0, port 0 costs 0, port 1 costs `DV_INF`
      once there is a port 1 and 0 otherwise, a gateway's pool is exactly
      its available block, and both invariants hold. Initialisation fails
      only on a gateway prefix outside `0..32`. */
  lemma FreshRouter(reg: Registry, portNum: int, externalPort: int, external: Cidr, available: Cidr)
    requires InitArgsValid(externalPort, external, available)
    ensures var (r0, reg0) := CreateRouter(reg);
      var ok := Init(r0, reg0, portNum, externalPort, external, available).Ok?;
      ok <==> (externalPort != 0 ==> PrefixInRange(available) && PrefixInRange(external))
    ensures var (r0, reg0) := CreateRouter(reg);
      var res := Init(r0, reg0, portNum, externalPort, external, available);
      res.Ok? ==>
      var (r, reg') := res.value;
      && r.id == reg'.routerCount == reg.routerCount + 1
      && EntryOr(r.routes, r.id, -1) == 0
      && CostOf(r.portCost, 0) == 0
      && CostOf(r.portCost, 1) == (if portNum >= 1 then DvInf else 0)
      && CellOr(r.dv, r.id, r.id, -1) == 0
      && (externalPort != 0 ==> forall x: Addr :: x in r.pool <==> InBlock(x, available))
      && (externalPort == 0 ==> r.pool == {})
      && NatInv(r)
      && NeighborsReady(r, reg'.routerCount)
  {
    var (r0, reg0) := CreateRouter(reg);
    InitSpec(r0, reg0, portNum, externalPort, external, available);
  }
}
