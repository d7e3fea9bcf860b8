/** The data path, `handle_data_message`: source blocking, the NAT of a
    gateway (leasing a public address to an internal host on the way out,
    and mapping a leased address back to its host on the way in) and the
    choice of egress port. */
module Forwarding {
  import opened Common
  import opened Bytes
  import opened Addresses
  import opened Wire
  import opened DistanceVector
  import opened RouterState

  /** The least address of a non-empty set: where an ascending traversal
      of a `std::set` or `std::map` keyed by addresses starts. */
  function LeastAddr(s: set<Addr>): (a: Addr)
    requires s != {}
    ensures a in s && forall x :: x in s ==> a <= x
  {
    var m := SetMin(s);
    m
  }

  /** The internal hosts holding a lease on `pub`. */
  function LeaseHolders(leases: map<Addr, Addr>, pub: Addr): set<Addr> {
    set h | h in leases && leases[h] == pub
  }

  /** The scan of `NAT_table` in ascending host order for the first host
      whose lease is `pub`. */
  function ReverseLookup(leases: map<Addr, Addr>, pub: Addr): (h: Option<Addr>)
    ensures h.None? <==> forall x :: x in leases ==> leases[x] != pub
    ensures h.Some? ==> h.value in leases && leases[h.value] == pub
    ensures h.Some? ==> forall x :: x in leases && leases[x] == pub ==> h.value <= x
  {
    var holders := LeaseHolders(leases, pub);
    if holders == {} then
      assert forall x :: x in leases ==> leases[x] != pub by {
        forall x | x in leases ensures leases[x] != pub {
          assert x in holders <==> leases[x] == pub;
        }
      }
      None
    else
      var h := LeastAddr(holders);
      assert forall x :: x in leases && leases[x] == pub ==> x in holders;
      Some(h)
  }

  /** `routeraim_to_port.at(owner)` when there is a route, else the default
      port 1. */
  function PortTowards(r: Router, owner: int): int {
    EntryOr(r.routes, owner, 1)
  }

  /** The packet with its header's addresses set to `src` and `dst`. The
      C++ code always stores both fields; storing the values already there
      gives the same bytes, so the short cut here changes no result and only
      lets "the packet is unchanged" be stated directly. */
  function Readdress(packet: seq<Byte>, src: Addr, dst: Addr): (out: seq<Byte>)
    requires |packet| >= HeaderSize
    ensures |out| == |packet|
    ensures DecodeHeader(out) == DecodeHeader(packet).(src := src, dst := dst)
    ensures out[8..] == packet[8..]
  {
    var h := DecodeHeader(packet);
    if h.src == src && h.dst == dst then packet else WithAddresses(packet, src, dst)
  }

  /** The traffic enters from the external network: its source is an
      external address owned by this router. */
  predicate Inbound(r: Router, reg: Registry, src: Addr) {
    src in reg.extOwner && reg.extOwner[src] == r.id
  }

  /** A new lease: the least free public address moves from the pool to
      the host. */
  function Lease(r: Router, host: Addr): (res: (Router, Addr))
    requires r.pool != {}
    ensures res.1 in r.pool && forall x :: x in r.pool ==> res.1 <= x
    ensures res.0 == r.(pool := r.pool - {res.1}, leases := r.leases[host := res.1])
  {
    var a := LeastAddr(r.pool);
    (r.(pool := r.pool - {a}, leases := r.leases[host := a]), a)
  }

  /** The egress decision once the destination is final (after any inbound
      rewrite). */
  function Deliver(r: Router, reg: Registry, packet: seq<Byte>, src: Addr, dst: Addr): (res: Result<Step>)
    requires |packet| >= HeaderSize
    ensures res.Ok? ==> res.value.registry == reg && |res.value.packet| == |packet|
  {
    if dst in reg.hostOwner then
      if reg.hostOwner[dst] == r.id then
        if dst in r.hostPort then Ok(Step(r, reg, r.hostPort[dst], Readdress(packet, src, dst)))
        else Err(HostPortMissing)
      else Ok(Step(r, reg, PortTowards(r, reg.hostOwner[dst]), Readdress(packet, src, dst)))
    else if dst in reg.extOwner then
      if reg.extOwner[dst] == r.id then
        if src in r.leases then Ok(Step(r, reg, r.extPort, Readdress(packet, r.leases[src], dst)))
        else if r.pool == {} then Ok(Step(r, reg, -1, Readdress(packet, src, dst)))
        else
          var (r', a) := Lease(r, src);
          Ok(Step(r', reg, r.extPort, Readdress(packet, a, dst)))
      else Ok(Step(r, reg, PortTowards(r, reg.extOwner[dst]), Readdress(packet, src, dst)))
    else Ok(Step(r, reg, 1, Readdress(packet, src, dst)))
  }

  /** `handle_data_message(header, in_port)`: the verdict, the router after
      any new lease, and the packet with its header rewritten in place. */
  function HandleData(r: Router, reg: Registry, inPort: int, packet: seq<Byte>): (res: Result<Step>)
    requires |packet| >= HeaderSize
    ensures res.Ok? ==> res.value.registry == reg && |res.value.packet| == |packet|
  {
    var h := DecodeHeader(packet);
    if h.src in r.blocked then Ok(Step(r, reg, -1, packet))
    else if Inbound(r, reg, h.src) then
      if inPort != r.extPort then Err(IngressOffExternalPort)
      else match ReverseLookup(r.leases, h.dst)
        case None => Ok(Step(r, reg, -1, packet))
        case Some(host) => Deliver(r, reg, packet, h.src, host)
    else Deliver(r, reg, packet, h.src, h.dst)
  }

  // ---------------------------------------------------------------------
  // Properties

  /** A blocked source is dropped, and nothing changes. */
  lemma BlockedSourceDropped(r: Router, reg: Registry, inPort: int, packet: seq<Byte>)
    requires |packet| >= HeaderSize && DecodeHeader(packet).src in r.blocked
    ensures HandleData(r, reg, inPort, packet) == Ok(Step(r, reg, -1, packet))
  {
  }

  /** Egress for outbound traffic (not blocked, not from an owned external
      address): a host attached here leaves on its port; a host or an
      external address owned by another router leaves on the route towards
      that router, or port 1 without one; an unknown destination leaves on
      port 1. None of these changes the router or the packet. */
  lemma OutboundVerdicts(r: Router, reg: Registry, inPort: int, packet: seq<Byte>)
    requires |packet| >= HeaderSize
    requires DecodeHeader(packet).src !in r.blocked && !Inbound(r, reg, DecodeHeader(packet).src)
    ensures var dst := DecodeHeader(packet).dst;
      var res := HandleData(r, reg, inPort, packet);
      && (dst in reg.hostOwner && reg.hostOwner[dst] == r.id ==>
            if dst in r.hostPort then res == Ok(Step(r, reg, r.hostPort[dst], packet)) else res == Err(HostPortMissing))
      && (dst in reg.hostOwner && reg.hostOwner[dst] != r.id ==>
            res == Ok(Step(r, reg, if reg.hostOwner[dst] in r.routes then r.routes[reg.hostOwner[dst]] else 1, packet)))
      && (dst !in reg.hostOwner && dst in reg.extOwner && reg.extOwner[dst] != r.id ==>
            res == Ok(Step(r, reg, if reg.extOwner[dst] in r.routes then r.routes[reg.extOwner[dst]] else 1, packet)))
      && (dst !in reg.hostOwner && dst !in reg.extOwner ==> res == Ok(Step(r, reg, 1, packet)))
  {
  }

  /** Outbound traffic to an external address this gateway owns is
      translated: a host with a lease leaves on the external port with its
      source rewritten to the lease; a host without one takes the least
      free address, unless the pool is empty, in which case it is dropped.
      Leasing keeps the leases one-to-one and disjoint from the pool, and
      every public address stays either free or leased. */
  lemma OutboundNat(r: Router, reg: Registry, inPort: int, packet: seq<Byte>)
    requires |packet| >= HeaderSize && NatInv(r)
    requires DecodeHeader(packet).src !in r.blocked && !Inbound(r, reg, DecodeHeader(packet).src)
    requires DecodeHeader(packet).dst !in reg.hostOwner
    requires DecodeHeader(packet).dst in reg.extOwner && reg.extOwner[DecodeHeader(packet).dst] == r.id
    ensures var h := DecodeHeader(packet);
      var res := HandleData(r, reg, inPort, packet);
      && res.Ok?
      && var r' := res.value.router;
      && NatInv(r')
      && PublicAddresses(r') == PublicAddresses(r)
      && (h.src in r.leases ==>
            && r' == r && res.value.verdict == r.extPort
            && DecodeHeader(res.value.packet) == h.(src := r.leases[h.src]))
      && (h.src !in r.leases && r.pool == {} ==> r' == r && res.value.verdict == -1)
      && (h.src !in r.leases && r.pool != {} ==>
            && res.value.verdict == r.extPort
            && h.src in r'.leases && r'.leases[h.src] in r.pool
            && (forall x :: x in r.pool ==> r'.leases[h.src] <= x)
            && r'.pool == r.pool - {r'.leases[h.src]}
            && r'.leases == r.leases[h.src := r'.leases[h.src]]
            && DecodeHeader(res.value.packet) == h.(src := r'.leases[h.src]))
  {
    var h := DecodeHeader(packet);
    if h.src !in r.leases && r.pool != {} {
      var (r', a) := Lease(r, h.src);
      LeasePreservesNat(r, h.src);
    }
  }

  /** A lease for a host without one keeps the NAT invariant and the set of
      public addresses. */
  lemma LeasePreservesNat(r: Router, host: Addr)
    requires NatInv(r) && r.pool != {} && host !in r.leases
    ensures NatInv(Lease(r, host).0)
    ensures PublicAddresses(Lease(r, host).0) == PublicAddresses(r)
  {
    var (r', a) := Lease(r, host);
    forall x | x in PublicAddresses(r')
      ensures x in PublicAddresses(r)
    {
      if x in r'.leases.Values {
        var k :| k in r'.leases && r'.leases[k] == x;
        if k != host {
          assert r.leases[k] == x;
        }
      }
    }
    forall x | x in PublicAddresses(r)
      ensures x in PublicAddresses(r')
    {
      if x == a {
        assert r'.leases[host] == a;
      } else if x in r.leases.Values {
        var k :| k in r.leases && r.leases[k] == x;
        assert r'.leases[k] == x;
      }
    }
    assert forall x :: x in PublicAddresses(r') <==> x in PublicAddresses(r);
  }

  /** Inbound traffic (from an external address this gateway owns) must
      arrive on the external port; its destination is rewritten to the
      host leasing it (the only one, given the NAT invariant), or it is
      dropped when no host does. */
  lemma InboundNat(r: Router, reg: Registry, inPort: int, packet: seq<Byte>)
    requires |packet| >= HeaderSize && NatInv(r)
    requires DecodeHeader(packet).src !in r.blocked && Inbound(r, reg, DecodeHeader(packet).src)
    ensures var h := DecodeHeader(packet);
      var res := HandleData(r, reg, inPort, packet);
      && (inPort != r.extPort ==> res == Err(IngressOffExternalPort))
      && (inPort == r.extPort && h.dst !in r.leases.Values ==> res == Ok(Step(r, reg, -1, packet)))
      && (inPort == r.extPort ==> forall host :: host in r.leases && r.leases[host] == h.dst ==>
            res == Deliver(r, reg, packet, h.src, host))
  {
    var h := DecodeHeader(packet);
    if inPort == r.extPort {
      if h.dst !in r.leases.Values {
        assert forall x :: x in r.leases ==> r.leases[x] != h.dst;
      }
    }
  }

  /** NAT round trip: once a host has been leased an address, a reply from
      the external network to that address is delivered to the host's own
      port on the gateway it is attached to. */
  lemma LeaseThenReply(r: Router, reg: Registry, host: Addr, packet: seq<Byte>)
    requires |packet| >= HeaderSize && NatInv(r)
    requires host in r.leases && DecodeHeader(packet).dst == r.leases[host]
    requires DecodeHeader(packet).src !in r.blocked && Inbound(r, reg, DecodeHeader(packet).src)
    requires host in reg.hostOwner && reg.hostOwner[host] == r.id && host in r.hostPort
    ensures var res := HandleData(r, reg, r.extPort, packet);
      && res.Ok? && res.value.verdict == r.hostPort[host] && res.value.router == r
      && DecodeHeader(res.value.packet) == DecodeHeader(packet).(dst := host)
  {
    InboundNat(r, reg, r.extPort, packet);
  }

  /** `NAT_table.erase(host)` after returning its address to the pool; a
      host without a lease changes nothing. */
  function Release(r: Router, host: Addr): (r': Router)
    ensures host !in r'.leases
    ensures host in r.leases ==> r'.pool == r.pool + {r.leases[host]} && r'.leases == r.leases - {host}
    ensures host !in r.leases ==> r' == r
  {
    if host in r.leases then r.(leases := r.leases - {host}, pool := r.pool + {r.leases[host]}) else r
  }

  /** Releasing keeps the NAT invariant and the set of public addresses. */
  lemma ReleasePreservesNat(r: Router, host: Addr)
    requires NatInv(r)
    ensures NatInv(Release(r, host))
    ensures PublicAddresses(Release(r, host)) == PublicAddresses(r)
  {
    if host in r.leases {
      var r' := Release(r, host);
      var a := r.leases[host];
      forall x | x in PublicAddresses(r)
        ensures x in PublicAddresses(r')
      {
        if x != a && x in r.leases.Values {
          var k :| k in r.leases && r.leases[k] == x;
          assert k != host && r'.leases[k] == x;
        }
      }
      forall x | x in PublicAddresses(r')
        ensures x in PublicAddresses(r)
      {
        if x in r'.leases.Values {
          var k :| k in r'.leases && r'.leases[k] == x;
          assert r.leases[k] == x;
        }
      }
      assert forall x :: x in PublicAddresses(r') <==> x in PublicAddresses(r);
    }
  }

  /** Releasing a lease just taken restores the router exactly. */
  lemma ReleaseUndoesLease(r: Router, host: Addr)
    requires r.pool != {} && host !in r.leases
    ensures Release(Lease(r, host).0, host) == r
  {
    var (r', a) := Lease(r, host);
    assert r'.leases - {host} == r.leases;
    assert r'.pool + {a} == r.pool;
  }
}
