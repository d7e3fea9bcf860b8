# Router and link-layer switch: a Dafny model

This project models the network-layer router and link-layer switch of a
small network emulator. It then proves what the two devices promise.

The router (`router.cpp`, `router.h`) has four parts:

- **Routing by distance vectors.** Every router keeps a table of
  distance vectors (`DV_table`), a forwarding table from destination router
  to port (`routeraim_to_port`), a neighbour per port and a cost per port.
  - It advertises its own row in a DV packet. The DVP layout carries
    `int` cost / `int` next-hop pairs; the legacy DV layout carries costs
    only.
  - On receiving a DVP it first applies *poisoned reverse*: a destination
    the advertiser routes through the receiver is cached as `DV_INF`
    (11451419).
  - It then recomputes its whole own row by Bellman-Ford over all
    neighbours, visiting ports in ascending order.
  - It answers 0, with its own advertisement in the buffer, when anything
    changed, and -1 otherwise.
- **NAT at a gateway.** A gateway owns a block of external addresses and a
  pool of available public addresses. Outbound traffic from a host takes a
  lease: the least free address. Inbound traffic to a leased address is
  rewritten back to the host. A control message releases a lease.
- **Control messages.** Subtype 0 triggers an update, 1 releases a lease,
  2 changes a port (a cost, or `-1` for a link failure), 3 adds a host, and
  5 and 6 block and unblock a source address.
- **Data forwarding.** Blocked sources are dropped. Local hosts are
  reached on their port. Remote hosts and external addresses go through
  the route to their router, or port 1 without one.

The switch (`switch.cc`) has two parts:

- **The frame codec.** `PackFrame` writes a delimiter (`0xDE`), the frame
  with every delimiter byte doubled, and an even-parity byte. The parity
  byte comes from an 8-bit tally of the 1-bits. `UnpackFrame` checks the
  parity and undoes the stuffing.
- **The learning switch.** It maps a source MAC to the port it was heard
  on, with an aging counter of 10. A control frame decrements every
  counter and forgets the entries that reach 0.

## How the model is built

- The C++ objects become immutable datatypes. `RouterState.Router` holds
  one router's fields. `RouterState.Registry` holds the process-wide
  globals: `router_count`, `hostip_to_routerid` and `extip_to_routerid`.
- Each operation returns a `Result<Step>`: the new router, the new
  registry, the verdict and the packet buffer. A C++ `throw` or failed
  `assert` becomes an `Err` with a `Fault`.
- Integers are unbounded. Where the source relies on machine widths, the
  model writes the width out:
  - `int` fields in packets wrap to 32 bits (`Bytes.Wrap32`);
  - the 16-bit header length field holds the payload size modulo 2^16;
  - the switch's parity tally wraps at 256;
  - addresses are `uint32_t` values packed from dotted quads, and
    `ntohl`/`htonl` are a byte swap on a little-endian host.
- `std::map` and `std::set` iterate in ascending key order. The model
  follows the same order wherever it matters: the first port achieving the
  minimum, the least free NAT address, and the first host on a port.
- A read through `operator[]` of a missing cell yields 0 in the source. In
  the model that becomes an explicit default.

| file | module | what it holds |
|---|---|---|
| common.dfy | Common | `Option`, least element of a finite set, map insertion that keeps an existing key |
| bytes.dfy | Bytes | bytes, little-endian values, 32-bit two's complement |
| addresses.dfy | Addresses | dotted quads, byte swap, CIDR block expansion |
| wire.dfy | Wire | the 12-byte packet header, the DVP and DV payload layouts |
| distance_vector.dfy | DistanceVector | the own-row recomputation and its Bellman-Ford characterisation |
| router_state.dfy | RouterState | the router, the registry, construction and `router_init` |
| advertising.dfy | Advertising | `make_DVP_packet`, `make_DV_packet` |
| dv_handlers.dfy | DvHandlers | `handle_DVP_message`, `handle_DV_message` |
| forwarding.dfy | Forwarding | `handle_data_message`, NAT leases and release |
| control.dfy | ControlPlane | `handle_control_message`, the `router` dispatcher |
| frame_codec.dfy | FrameCodec | `PackFrame`, `UnpackFrame` |
| learning_switch.dfy | LearningSwitch | `InitSwitch`, `ProcessFrame` |

## Model

| member | source | states |
|---|---|---|
| Addresses.PackQuad | router.cpp:17-21 | packing four octets as `a \| b<<8 \| c<<16 \| d<<24` loses nothing: unpacking the result gives the octets back |
| Addresses.PackUnpack | router.cpp:23-29 | formatting an address into its four octets and packing them again gives the same address |
| Addresses.PackedBytes | router.cpp:17-21 | in memory, a packed address's little-endian bytes are its octets in written order |
| Addresses.SwapInvolution | router.cpp:60-72 | `ntohl` after `htonl` is the identity, so the byte swap is a bijection on addresses |
| Addresses.BlockMembers | router.cpp:58-73 | the addresses the expansion loop enumerates for `a.b.c.d/prefix` are exactly those that share its top `prefix` bits in network order |
| Addresses.BlockCardinality | router.cpp:60-65 | a `/prefix` block expands to exactly `2^(32-prefix)` distinct addresses |
| Bytes.Int32RoundTrip | router.cpp:301 | writing an `int` with `memcpy` and reading it back gives the value reduced to 32-bit two's complement |
| Wire.HeaderRoundTrip | router.h:19-37 | decoding an encoded `PackHeader` gives the same source, destination, type and length, and the payload starts at byte 12 |
| Wire.HeaderBytesRoundTrip | router.h:19-37 | any 12-byte header image with a zero padding byte is the encoding of the header it decodes to |
| Wire.DvpRoundTrip | router.cpp:545-560 | reading a DVP payload at the receiver's offsets gives the advertiser and every destination's advertised cost and next hop, each as a 32-bit `int` |
| Wire.DvRoundTrip | router.cpp:343-352 | reading a legacy DV payload at the receiver's offsets gives the advertiser and every advertised cost |
| Wire.DvpBufferRead | router.cpp:471-524 | after the DVP packet is copied over a buffer, the buffer holds a DV-type header with the 16-bit payload size, the advertiser, and each entry's cost and next hop |
| Wire.DvBufferRead | router.cpp:284-323 | the same for a legacy DV packet copied over a buffer |
| RouterState.NewRouter | router.h:56-62 | a new router reaches itself through port 0, ports 0 and 1 cost 0, and it has no table rows, neighbours, leases or pool |
| RouterState.CreateRouter | router.cpp:47-50 | creating a router increments the global count and numbers the router with the new count, so ids run from 1 |
| RouterState.InitSpec | router.cpp:31-89 | a gateway whose available or external prefix lies outside `0..32` fails the prefix assertion, and only such a gateway fails; otherwise initialisation has the pool effect and the table effect stated by the next two rows |
| RouterState.InitialisedPool | router.cpp:55-73 | a gateway's pool gains exactly its available block, of `2^(32-prefix)` addresses, and its external block is registered to it without overriding earlier owners; on any other router neither changes |
| RouterState.InitialisedTables | router.cpp:75-86 | ports `1..port_num` cost `DV_INF`, the own row is 0 to itself and `DV_INF` to every other router `1..count`, other rows and every other field are unchanged, and the external port is recorded |
| RouterState.FreshRouter | router.cpp:31-89 | initialisation fails exactly on a gateway prefix outside `0..32`; otherwise a freshly created and initialised router has id = router count, reaches itself at cost 0 through port 0, has its pool equal to its available block, and satisfies the NAT invariant and the neighbour-row invariant |
| Advertising.MakeDvpReadBack | router.cpp:471-524 | the DVP packet carries, for every destination `1..count`, the own cost (after missing cells become `DV_INF`) and the neighbour behind the chosen port, or -1 when unknown; the id is -1 on a forced upload |
| Advertising.MakeDvReadBack | router.cpp:284-323 | the legacy DV packet carries every own cost `1..count` after missing cells become `DV_INF` |
| DistanceVector.RecomputeReportsChange | router.cpp:568-604 | the recomputation's flag is raised exactly when some destination's own cost or chosen port differs afterwards |
| DistanceVector.RecomputeFrame | router.cpp:570-595 | the recomputation changes only the own costs and forwarding entries of destinations in range other than the router itself; it keeps every existing cell of other rows, although it may add missing neighbour cells as `DV_INF`; and it leaves every destination in range other than the router itself with an own cost |
| DistanceVector.RecomputeFills | router.cpp:580-590 | a cell of another router's row that the recomputation creates holds `DV_INF` when missing cells are filled in, and 0 when they are read through `operator[]` on the link-failure path |
| DistanceVector.RecomputeBest | router.cpp:570-595 | with complete neighbour rows, each destination ends with cost min(`DV_INF`, port cost + neighbour's cost) over all neighbours, routed through the first port in ascending order that achieves it, or through the old port when nothing beats `DV_INF` |
| DvHandlers.AddNeighbor | router.cpp:541-543 | a port keeps the first neighbour ever learned on it; other ports are unaffected |
| DvHandlers.StoreDvp | router.cpp:546-560 | the advertiser's row `1..count` holds the advertised costs, poisoned where the next hop is the receiver; every other cell is untouched |
| DvHandlers.HandleDvpRefusesHostPorts | router.cpp:528-530 | a DV message fails exactly when its arrival port has no positive cost, whatever its payload holds, since the refusal comes before the payload is read |
| DvHandlers.HandleDvpResend | router.cpp:536-539 | the resend sentinel -1 is answered with verdict 0 and the router's own advertisement, and no route, neighbour, cost or existing cell changes |
| DvHandlers.HandleDvpPoisonedReverse | router.cpp:541-560 | after a DVP from another router, the cached cost for each destination is `DV_INF` exactly when the advertised next hop is the receiver, and the advertised cost otherwise; the neighbour is learned only for a fresh port; every existing cell of other routers' rows keeps its value, and a missing neighbour cell may be filled in, always with `DV_INF` |
| DvHandlers.HandleDvpVerdict | router.cpp:568-612 | the verdict is 0 exactly when some destination other than the router itself changes cost or chosen port; otherwise -1 with the buffer untouched |
| DvHandlers.HandleDvpAdvertises | router.cpp:606-609 | with verdict 0 the buffer holds the router's updated advertisement: its id and every destination's new cost and next hop |
| DvHandlers.HandleDvpBellmanFord | router.cpp:562-604 | with complete neighbour rows, after a DVP every destination satisfies the Bellman-Ford relation over all neighbours, and the neighbour rows stay complete |
| DvHandlers.AdvertiseThenReceive | router.cpp:471-560 | one router's advertisement, received on a router link of another, is cached there as advertised, poisoned to `DV_INF` exactly where the sender routes through the receiver |
| DvHandlers.HandleDvRelaxes | router.cpp:325-375 | a legacy DV message sets each own cost to the smaller of the old cost (`DV_INF` when missing) and the advertised cost plus the link cost, moves the route to the arrival port exactly where that is strictly smaller, and answers 0 exactly when that happened for some destination |
| DvHandlers.HandleDvSelfAdvert | router.cpp:325-375 | a legacy DV message carrying the receiver's own id is accepted: the own row takes the advertised costs, the neighbour is learned for a fresh port, no route changes, and the answer is -1 with the buffer untouched |
| DvHandlers.LegacyKeepsStaleCost | router.cpp:354-366 | a destination routed through the arrival port keeps its old cost and route even when the advertiser now offers only a dearer path (see Findings) |
| Forwarding.ReverseLookup | router.cpp:389-397 | finds a host leasing the address if and only if one exists, and when several do, the least |
| Forwarding.BlockedSourceDropped | router.cpp:378-382 | a packet from a blocked source is dropped and nothing changes |
| Forwarding.OutboundVerdicts | router.cpp:409-468 | outbound traffic leaves on a local host's port, or toward the router owning the host or external address (port 1 without a route), or on port 1 for an unknown destination; a local host without a port is a fault |
| Forwarding.OutboundNat | router.cpp:428-451 | traffic to this gateway's external block leaves on the external port with the source rewritten to the host's lease, taking the least free address for a new host, or is dropped when the pool is empty; the NAT invariant and the set of public addresses are kept |
| Forwarding.LeasePreservesNat | router.cpp:443-446 | taking a lease keeps the leases one-to-one and disjoint from the pool, and keeps the set of public addresses |
| Forwarding.InboundNat | router.cpp:383-407 | inbound traffic arriving off the external port is a fault; to an unleased address it is dropped; to a leased address it is delivered to the host holding that lease |
| Forwarding.LeaseThenReply | router.cpp:383-415 | a reply from outside to a host's leased address arrives at that host's port, with the destination rewritten to the host |
| Forwarding.Release | router.cpp:134-140 | releasing a leased host returns its address to the pool and forgets the lease; releasing an unleased host changes nothing |
| Forwarding.ReleasePreservesNat | router.cpp:129-143 | releasing keeps the NAT invariant and the set of public addresses |
| Forwarding.ReleaseUndoesLease | router.cpp:129-143 | releasing a lease just taken restores the router exactly |
| ControlPlane.RouteDispatch | router.cpp:95-113 | the dispatcher hands DV packets to the DVP handler, data to the data handler and control messages to the control handler with poisoned reverse; any other type is a fault |
| ControlPlane.ControlFaults | router.cpp:119-278 | a control message fails exactly when its subtype is none of 0, 1, 2, 3, 5 and 6 |
| ControlPlane.TriggerAdvertises | router.cpp:120-128 | subtype 0 answers 0 with the router's own advertisement and changes no route, neighbour, cost or existing cell |
| ControlPlane.ReleaseCommand | router.cpp:129-143 | subtype 1 returns the host's leased address to the pool, answers -1 and keeps the NAT invariant |
| ControlPlane.PortDownExternalIgnored | router.cpp:150-155 | a link failure reported on the external port changes nothing and answers -1 |
| ControlPlane.PortDownDetachesHost | router.cpp:150-171 | a link failure on a port with hosts forgets the least such host from both host maps and changes nothing else |
| ControlPlane.PortDownReroutes | router.cpp:172-199 | a link failure on a router link sets the port cost to `DV_INF`, forgets its neighbour, and leaves every destination satisfying the Bellman-Ford relation over the remaining neighbours; the router advertises exactly with poisoned reverse |
| ControlPlane.PortDownAdvertises | router.cpp:172-199 | a link failure on a router link sets the port's cost to `DV_INF` and forgets its neighbour, and changes nothing else outside the tables, the cost of no other port included; with poisoned reverse it answers 0 with the router's recomputed own row, each cost with its next hop over the remaining neighbours; without it, -1 with the buffer untouched |
| ControlPlane.SetCostReroutes | router.cpp:204-237 | a cost change sets the port's cost, leaves every destination satisfying the Bellman-Ford relation under the new costs, and advertises |
| ControlPlane.SetCostAdvertises | router.cpp:204-237 | a cost change gives the port the new cost and changes no other port's cost, no neighbour and nothing outside the tables; it answers 0 with the recomputed own row, with next hops under poisoned reverse and as bare costs otherwise |
| ControlPlane.AddHostCommand | router.cpp:240-252 | subtype 3 maps the host to the given port and to this router, each unless that map already knows it, in which case the old entry stays; every other host entry and all other state are unchanged, and the answer is -1 with the buffer untouched |
| ControlPlane.AddHostThenDeliver | router.cpp:240-252 | after a new host is added on a port, outbound data for it leaves on that port, unchanged |
| ControlPlane.BlockThenDrop | router.cpp:254-261 | subtype 5 adds the address to the blocked set, changes nothing else and answers -1; afterwards every data packet from the blocked address is dropped, on any port to any destination |
| ControlPlane.UnblockCommand | router.cpp:263-273 | subtype 6 removes the address from the blocked set, changes nothing else and answers -1; unblocking an address that is not blocked leaves the router as it was |
| ControlPlane.UnblockUndoesBlock | router.cpp:263-273 | subtype 6 undoes subtype 5 on an address that was not blocked before |
| FrameCodec.PackFrame | switch.cc:11-51 | fails exactly on a null buffer or a non-positive length; otherwise writes and returns the length of the delimiter, the stuffed frame and the parity byte |
| FrameCodec.ParityTally | switch.cc:36-44 | the bit-by-bit 8-bit tally is the number of 1-bits modulo 256, and its low bit is their parity |
| FrameCodec.CountBits | switch.cc:39-43 | counting one byte's bits adds its number of 1-bits to the tally modulo 256 |
| FrameCodec.UnpackFrame | switch.cc:53-91 | fails on a null buffer, a non-positive length, odd parity or a delimiter not followed by a second one; otherwise returns the unstuffed body and its length |
| FrameCodec.PackedShape | switch.cc:18-33 | a packed frame opens with the delimiter and is longer than the input by two bytes plus one per delimiter byte in it |
| FrameCodec.PackedParityEven | switch.cc:35-49 | the parity byte makes the number of 1-bits of the whole packed frame even, despite the 8-bit tally wrapping |
| FrameCodec.PackUnpack | switch.cc:11-91 | unpacking a packed non-empty frame returns exactly the frame |
| FrameCodec.PackThenUnpack | switch.cc:11-91 | running `UnpackFrame` on what `PackFrame` wrote, with the length it returned, returns the original frame and its length |
| FrameCodec.OddParityRejected | switch.cc:60-75 | any packed frame with an odd number of 1-bits is rejected |
| FrameCodec.LoneDelimiterRejected | switch.cc:79-86 | a delimiter in the body followed by any other byte, the parity byte included, is rejected |
| LearningSwitch.CreateSwitch | switch.cc:115-116 | a new switch has no ports and an empty table |
| LearningSwitch.InitSwitch | switch.cc:118-121 | initialising sets the port count and empties the table |
| LearningSwitch.AgingFrame | switch.cc:125-137 | a control frame is dropped; an entry survives exactly when its counter was at least 2, keeping its port with the counter one lower |
| LearningSwitch.AgingRepeated | switch.cc:125-137 | after `n` aging frames an entry survives exactly when its counter exceeded `n`, with the counter `n` lower, so an unrefreshed entry is gone after 10 |
| LearningSwitch.LearningFrame | switch.cc:139-155 | a data frame adds its source to the table with a fresh counter, on its old port if it was known and the arrival port otherwise; no other entry changes |
| LearningSwitch.ForwardingVerdict | switch.cc:157-171 | an unknown destination is flooded, a destination learned on the arrival port is dropped, and any other goes to its learned port |
| LearningSwitch.CountersStayValid | switch.cc:123-172 | every frame keeps all counters between 1 and 10 |
| LearningSwitch.LearnThenForward | switch.cc:146-171 | a station heard on port `p` is afterwards reached through `p`; a frame for it arriving on `p` itself is dropped |

## Left out

- Text parsing is not modelled. The `sscanf` parsing of control messages
  and the `s2ipv4`/`s2ipv4_with_mask` address strings are replaced by
  inputs that are already parsed: `ControlPlane.Command` and
  `Addresses.Cidr`. The `ipv42s` formatter is modelled only as
  `Addresses.UnpackQuad`.
- Logging to `std::cout` and `std::cerr` is not modelled. It has no
  effect on state or verdicts.
- `RouterState.Init` requires that a gateway's prefixes are not `/0`,
  because `1U << 32` is undefined behaviour in C++. Prefixes outside
  `0..32` are modelled as the failed assertion. The assertion disappears
  under `NDEBUG`; that build is not modelled. The expansion loop's `int`
  counter would also overflow for `/1`; the model expands that block as
  written.
- `RouterState.NewRouter` takes the external port as 0. `ext_port` is
  uninitialised until `router_init`.
- `ETHER_CONTROL_TYPE` and `FRAME_DELI` come from `types.h`, which is not
  part of this model. The control EtherType is a parameter. The delimiter
  is `0xDE`, as the commented-out declaration in `switch.cc` gives it.
- The `PackFrame` output buffer's capacity and the `UnpackFrame` output
  buffer's size are not modelled: C++ writes past them silently. On success
  the model returns the bytes written. When `UnpackFrame` returns -1 at a
  lone delimiter, the model returns no bytes. The source has by then
  already written the part of the body before the delimiter.
- The router's packet buffer has no modelled capacity either.
  `Wire.Overwrite` lengthens a buffer shorter than the advertisement
  copied into it. The `memcpy` in `make_DVP_packet` and `make_DV_packet`
  would write past the caller's array instead. This applies to
  `Advertising.MakeDvp`, `Advertising.MakeDv` and the handler and control
  results built from them.
- A received DV packet shorter than its payload layout is not modelled.
  On a router link, `DvHandlers.DvpReadable` and `DvHandlers.DvReadable`
  require the advertiser field and, unless it is the -1 sentinel, the
  whole payload for the router count. This is a requires of
  `DvHandlers.HandleDvp` and `DvHandlers.HandleDv`, and part of
  `ControlPlane.Routable`. On a shorter packet the source reads past the
  received buffer.
- The advertisement paths are modelled only while the payload size fits
  in 16 bits. That means at most 6553 routers for the DVP layout
  (`Advertising.DvpFits`) and 13106 for the legacy layout
  (`Advertising.DvFits`). These are requires of `Advertising.MakeDvp`,
  `Advertising.MakeDv`, `DvHandlers.HandleDvp`, `DvHandlers.HandleDv`,
  `ControlPlane.HandleControl` for subtypes 0 and 2, `ControlPlane.Route`,
  and the lemmas about them. Beyond the bound, the 16-bit
  `my_payload_size` wraps, and the source writes past its local array.
- Cost sums are unbounded integers. The source adds `port_to_cost` and
  `DV_table` entries as `int` (router.cpp:185, 222, 361, 590). So the
  model's costs match the source only while every cost stays below
  `2^31 - DV_INF`; signed overflow is undefined behaviour in C++.
- Convergence of a whole network of routers, the emulator that exchanges
  packets between them, and concurrency are not modelled. Each lemma is
  about one router or one switch, or about one packet passed from one
  router to another.
- `DvHandlers.HandleDvp` and `DvHandlers.HandleDv` accept a packet carrying
  the receiver's own id, as the source does. Among the handler lemmas, only
  `DvHandlers.HandleDvSelfAdvert` describes that case. A neighbour
  advertises its own id, which differs from the receiver's. The source,
  hearing its own id, overwrites the receiver's own row with the
  advertised values before anything else. The lemmas that exclude this
  case are listed below, each at the head of its line.
- `DvHandlers.HandleDvpVerdict`: also requires the advertiser to differ
  from the receiving router. When a router hears its own id, the verdict
  compares against the advertised values.
- `DvHandlers.HandleDvpPoisonedReverse`: also requires the advertiser to
  differ from the receiving router, for the same reason.
- `DvHandlers.AdvertiseThenReceive`: also requires the two routers' ids to
  differ.
- `DvHandlers.HandleDvRelaxes`: also requires the advertiser to differ from
  the receiving router. `DvHandlers.HandleDvSelfAdvert` covers the other
  case.
- `DvHandlers.LegacyKeepsStaleCost`: also requires the advertiser to differ
  from the receiving router.
- `DvHandlers.HandleDvpBellmanFord`: also requires the advertiser to
  differ from the receiving router, as above. It also requires every
  neighbour to have a complete row (`RouterState.NeighborsReady`). Without one, the source's
  `find` guard skips that neighbour and the minimum is over fewer ports.
- `ControlPlane.PortDownReroutes`: also requires complete neighbour rows.
  The link-failure path reads missing cells through `operator[]` as 0
  rather than skipping them.
- `ControlPlane.SetCostReroutes`: also requires complete neighbour rows,
  for the same reason as `HandleDvpBellmanFord`.
- `LearningSwitch.AgingRepeated`: stated for `n >= 1`. After 0 steps the
  table is unchanged and may hold counters of 0 or less, which the first
  step removes.
- `handle_DV_message` cannot be reached from `router`: its call is
  commented out in favour of `handle_DVP_message`. It is modelled anyway
  as `DvHandlers.HandleDv`.
- The `Err` fault carries only its kind, not the exception's message
  text.
- The MAC table is an `unordered_map`, and its iteration order does not
  matter to the result. The model uses a `map`.

## Findings

| source | as written | input that shows it | evidently intended | confidence | as-written member | corrected member |
|---|---|---|---|---|---|---|
| router.cpp:354-366 | The legacy relaxation only lowers own costs through the advertiser. It never raises a cost whose route runs through the advertiser when the advertiser's cost grows. | A router routes destination `k` through port `p` at cost 2. The neighbour on `p` then advertises `k` at 100, and the link costs 1. The router keeps cost 2 via `p`, although the path it names now costs 101. | Recompute the own row from all neighbours' cached rows, as the source comment at router.cpp:562-567 explains and `handle_DVP_message` does. The result is the Bellman-Ford minimum, so costs can rise as well as fall. | not executed; the source itself flags the handler as wrong (router.cpp:355) | DvHandlers.LegacyKeepsStaleCost | DvHandlers.HandleDvpBellmanFord |
