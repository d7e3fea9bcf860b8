/** The distance-vector table and the full Bellman-Ford recomputation of a
    router's own row.

    `DV_table` is a map of rows, one per router; a row maps destination ids
    to costs. The row of the router itself is authoritative; the rows of
    other routers cache what they last advertised. The forwarding table
    (`routeraim_to_port`) maps destination ids to egress ports.

    The recomputation visits every destination `1..router_count` except the
    router itself, resets its own cost to `DV_INF`, then walks the
    port-to-neighbour map in ascending port order and adopts a port whenever
    `cost[port] + DV[neighbour][destination]` is strictly smaller than the
    current value. The code exists in two shapes: the guarded loop skips a
    neighbour without a row and fills a missing cell with `DV_INF`
    (after a cost change or an advertisement); the link-down loop reads
    missing rows and cells through `operator[]`, which inserts 0. */
module DistanceVector {
  import opened Common

  /** The "unreachable" cost. */
  const DvInf: int := 11451419

  type Table = map<int, map<int, int>>

  /** The entry of a map, if there is one. */
  function Find(m: map<int, int>, k: int): Option<int> {
    if k in m then Some(m[k]) else None
  }

  /** The entry of a map, or `absent` when there is none. */
  function EntryOr(m: map<int, int>, k: int, absent: int): int {
    Find(m, k).Or(absent)
  }

  /** `port_to_cost[p]`: a port without a cost reads as 0. */
  function CostOf(cost: map<int, int>, p: int): int {
    EntryOr(cost, p, 0)
  }

  /** The cell `DV[r][j]`, if there is one. */
  function Look(dv: Table, r: int, j: int): Option<int> {
    if r in dv && j in dv[r] then Some(dv[r][j]) else None
  }

  /** The cell `DV[r][j]`, or `absent` when there is none. */
  function CellOr(dv: Table, r: int, j: int, absent: int): int {
    Look(dv, r, j).Or(absent)
  }

  function RowOf(dv: Table, r: int): map<int, int> {
    if r in dv then dv[r] else map[]
  }

  /** `DV[r][j] = v`, creating the row if needed. */
  function Put(dv: Table, r: int, j: int, v: int): (dv': Table)
    ensures dv'.Keys == dv.Keys + {r}
    ensures Look(dv', r, j) == Some(v)
    ensures forall r', j' :: (r' != r || j' != j) ==> Look(dv', r', j') == Look(dv, r', j')
  {
    dv[r := RowOf(dv, r)[j := v]]
  }

  /** How a neighbour cell that is not in the table is treated. */
  datatype Absent =
    | SkipAbsent  // a neighbour without a row is skipped; a missing cell is set to DV_INF
    | ZeroAbsent  // a missing row or cell is created by `operator[]` and reads as 0

  function AbsentValue(mode: Absent): int {
    if mode == SkipAbsent then DvInf else 0
  }

  /** The routing state one recomputation works on. */
  datatype Tables = Tables(dv: Table, routes: map<int, int>)

  /** One step of the inner loop: try port `p`, whose neighbour is `n` and
      whose cost is `c`, for destination `i`. */
  function Relax(mode: Absent, id: int, i: int, p: int, n: int, c: int, t: Tables): Tables {
    if mode == SkipAbsent && n !in t.dv then t
    else
      var dv1 := if Look(t.dv, n, i).Some? then t.dv else Put(t.dv, n, i, AbsentValue(mode));
      var via := c + CellOr(dv1, n, i, 0);
      if CellOr(dv1, id, i, 0) > via then Tables(Put(dv1, id, i, via), t.routes[i := p])
      else t.(dv := dv1)
  }

  /** The inner loop over the ports in `ports`, in ascending order. */
  function RelaxPorts(mode: Absent, id: int, i: int, ports: set<int>, nbr: map<int, int>,
                      cost: map<int, int>, t: Tables): Tables
    requires ports <= nbr.Keys
    decreases ports
  {
    if ports == {} then t
    else
      var p := SetMin(ports);
      RelaxPorts(mode, id, i, ports - {p}, nbr, cost, Relax(mode, id, i, p, nbr[p], CostOf(cost, p), t))
  }

  /** One destination: reset the own cost to `DV_INF`, then try every port. */
  function RecomputeDest(mode: Absent, id: int, i: int, nbr: map<int, int>, cost: map<int, int>,
                         t: Tables): Tables
  {
    RelaxPorts(mode, id, i, nbr.Keys, nbr, cost, t.(dv := Put(t.dv, id, i, DvInf)))
  }

  /** The outer loop over destinations `i..count`, skipping the router
      itself, together with the `renewed` flag of the DVP handler: whether
      some destination's cost or chosen port differs after its step. A
      missing own cost reads as 0 and a missing port as -1. */
  function Recompute(mode: Absent, id: int, i: int, count: int, nbr: map<int, int>,
                     cost: map<int, int>, t: Tables): (Tables, bool)
    decreases count - i + 1
  {
    if i > count then (t, false)
    else if i == id then Recompute(mode, id, i + 1, count, nbr, cost, t)
    else
      var t1 := RecomputeDest(mode, id, i, nbr, cost, t);
      var changed := CellOr(t1.dv, id, i, 0) != CellOr(t.dv, id, i, 0)
                     || EntryOr(t1.routes, i, -1) != EntryOr(t.routes, i, -1);
      var (t2, more) := Recompute(mode, id, i + 1, count, nbr, cost, t1);
      (t2, changed || more)
  }

  // ---------------------------------------------------------------------
  // Frame: what a recomputation leaves alone

  lemma RelaxFrame(mode: Absent, id: int, i: int, p: int, n: int, c: int, t: Tables)
    ensures var t' := Relax(mode, id, i, p, n, c, t);
      && (forall r, k :: k != i ==> Look(t'.dv, r, k) == Look(t.dv, r, k))
      && (forall k :: k != i ==> Find(t'.routes, k) == Find(t.routes, k))
      && (forall r, k :: r != id && Look(t.dv, r, k).Some? ==> Look(t'.dv, r, k) == Look(t.dv, r, k))
      && (forall r, k :: Look(t.dv, r, k).Some? ==> Look(t'.dv, r, k).Some?)
  {
  }

  lemma {:induction false} RelaxPortsFrame(mode: Absent, id: int, i: int, ports: set<int>,
                                           nbr: map<int, int>, cost: map<int, int>, t: Tables)
    requires ports <= nbr.Keys
    ensures var t' := RelaxPorts(mode, id, i, ports, nbr, cost, t);
      && (forall r, k :: k != i ==> Look(t'.dv, r, k) == Look(t.dv, r, k))
      && (forall k :: k != i ==> Find(t'.routes, k) == Find(t.routes, k))
      && (forall r, k :: r != id && Look(t.dv, r, k).Some? ==> Look(t'.dv, r, k) == Look(t.dv, r, k))
      && (forall r, k :: Look(t.dv, r, k).Some? ==> Look(t'.dv, r, k).Some?)
    decreases ports
  {
    if ports != {} {
      var p := SetMin(ports);
      var t1 := Relax(mode, id, i, p, nbr[p], CostOf(cost, p), t);
      RelaxFrame(mode, id, i, p, nbr[p], CostOf(cost, p), t);
      RelaxPortsFrame(mode, id, i, ports - {p}, nbr, cost, t1);
    }
  }

  /** A destination step touches only column `i` of the table and entry `i`
      of the forwarding table, and never overwrites a cell of another
      router's row that is already present. */
  lemma RecomputeDestFrame(mode: Absent, id: int, i: int, nbr: map<int, int>,
                           cost: map<int, int>, t: Tables)
    requires i != id
    ensures var t' := RecomputeDest(mode, id, i, nbr, cost, t);
      && Framed(t, t', id, i, i)
      && Look(t'.dv, id, i).Some?
  {
    RelaxPortsFrame(mode, id, i, nbr.Keys, nbr, cost, t.(dv := Put(t.dv, id, i, DvInf)));
  }

  /** The recomputation leaves every column outside `i..count`, the
      router's own column in particular (`DV[self][self]`), and every
      present cell of another router's row unchanged. */
  lemma {:induction false} RecomputeFrame(mode: Absent, id: int, i: int, count: int,
                                          nbr: map<int, int>, cost: map<int, int>, t: Tables)
    ensures var t' := Recompute(mode, id, i, count, nbr, cost, t).0;
      && Framed(t, t', id, i, count)
      && (forall k :: i <= k <= count && k != id ==> Look(t'.dv, id, k).Some?)
    decreases count - i + 1
  {
    var t' := Recompute(mode, id, i, count, nbr, cost, t).0;
    if i > count {
      assert t' == t;
    } else if i == id {
      assert t' == Recompute(mode, id, i + 1, count, nbr, cost, t).0;
      RecomputeFrame(mode, id, i + 1, count, nbr, cost, t);
      FramedWiden(t, t', id, i, count);
    } else {
      var t1 := RecomputeDest(mode, id, i, nbr, cost, t);
      assert t' == Recompute(mode, id, i + 1, count, nbr, cost, t1).0;
      RecomputeDestFrame(mode, id, i, nbr, cost, t);
      RecomputeFrame(mode, id, i + 1, count, nbr, cost, t1);
      FramedChain(t, t1, t', id, i, count);
      OwnFilledChain(t1, t', id, i, count);
    }
  }

  /** Every cell of another router's row that goes from missing to present
      between `t` and `t'` holds `v`. */
  ghost predicate FillsWith(t: Tables, t': Tables, id: int, v: int) {
    forall r, k :: r != id && Look(t.dv, r, k).None? && Look(t'.dv, r, k).Some? ==>
      Look(t'.dv, r, k) == Some(v)
  }

  lemma FillsChain(t: Tables, t1: Tables, t': Tables, id: int, v: int)
    requires FillsWith(t, t1, id, v) && FillsWith(t1, t', id, v)
    requires forall r, k :: r != id && Look(t1.dv, r, k).Some? ==> Look(t'.dv, r, k) == Look(t1.dv, r, k)
    ensures FillsWith(t, t', id, v)
  {
  }

  lemma {:induction false} RelaxPortsFills(mode: Absent, id: int, i: int, ports: set<int>,
                                           nbr: map<int, int>, cost: map<int, int>, t: Tables)
    requires ports <= nbr.Keys
    ensures FillsWith(t, RelaxPorts(mode, id, i, ports, nbr, cost, t), id, AbsentValue(mode))
    decreases ports
  {
    var t' := RelaxPorts(mode, id, i, ports, nbr, cost, t);
    if ports == {} {
      assert t' == t;
    } else {
      var p := SetMin(ports);
      var t1 := Relax(mode, id, i, p, nbr[p], CostOf(cost, p), t);
      assert FillsWith(t, t1, id, AbsentValue(mode));
      RelaxPortsFills(mode, id, i, ports - {p}, nbr, cost, t1);
      RelaxPortsFrame(mode, id, i, ports - {p}, nbr, cost, t1);
      FillsChain(t, t1, t', id, AbsentValue(mode));
    }
  }

  /** The recomputation creates a missing neighbour cell only with the
      value a missing cell is taken to have: `DV_INF` when the handlers
      fill it in, 0 when the link-failure path reads it through
      `operator[]`. */
  lemma {:induction false} RecomputeFills(mode: Absent, id: int, i: int, count: int,
                                          nbr: map<int, int>, cost: map<int, int>, t: Tables)
    ensures FillsWith(t, Recompute(mode, id, i, count, nbr, cost, t).0, id, AbsentValue(mode))
    decreases count - i + 1
  {
    var t' := Recompute(mode, id, i, count, nbr, cost, t).0;
    if i > count {
      assert t' == t;
    } else if i == id {
      RecomputeFills(mode, id, i + 1, count, nbr, cost, t);
    } else {
      var t0 := t.(dv := Put(t.dv, id, i, DvInf));
      var t1 := RecomputeDest(mode, id, i, nbr, cost, t);
      assert t' == Recompute(mode, id, i + 1, count, nbr, cost, t1).0;
      RelaxPortsFills(mode, id, i, nbr.Keys, nbr, cost, t0);
      RelaxPortsFrame(mode, id, i, nbr.Keys, nbr, cost, t0);
      FillsChain(t, t0, t1, id, AbsentValue(mode));
      RecomputeFills(mode, id, i + 1, count, nbr, cost, t1);
      RecomputeFrame(mode, id, i + 1, count, nbr, cost, t1);
      FillsChain(t, t1, t', id, AbsentValue(mode));
    }
  }

  lemma OwnFilledChain(t1: Tables, t': Tables, id: int, i: int, count: int)
    requires Look(t1.dv, id, i).Some?
    requires Framed(t1, t', id, i + 1, count)
    requires forall k :: i + 1 <= k <= count && k != id ==> Look(t'.dv, id, k).Some?
    ensures forall k :: i <= k <= count && k != id ==> Look(t'.dv, id, k).Some?
  {
  }

  /** Only the cells and routes of the router's own destinations `lo..hi`
      other than itself may differ, present cells of other rows are kept,
      and no present cell disappears. */
  ghost predicate Framed(t: Tables, t': Tables, id: int, lo: int, hi: int) {
    && (forall r, k :: (k < lo || k > hi || k == id) ==> Look(t'.dv, r, k) == Look(t.dv, r, k))
    && (forall k :: (k < lo || k > hi || k == id) ==> Find(t'.routes, k) == Find(t.routes, k))
    && (forall r, k :: r != id && Look(t.dv, r, k).Some? ==> Look(t'.dv, r, k) == Look(t.dv, r, k))
    && (forall r, k :: Look(t.dv, r, k).Some? ==> Look(t'.dv, r, k).Some?)
  }

  lemma FramedWiden(t: Tables, t': Tables, id: int, lo: int, hi: int)
    requires Framed(t, t', id, lo + 1, hi) && lo == id
    ensures Framed(t, t', id, lo, hi)
  {
  }

  lemma FramedChain(t: Tables, t1: Tables, t': Tables, id: int, lo: int, hi: int)
    requires Framed(t, t1, id, lo, lo) && Framed(t1, t', id, lo + 1, hi) && lo <= hi
    ensures Framed(t, t', id, lo, hi)
  {
  }

  /** Destination `k` ends with another own cost (a missing cost reads as
      0) or another chosen port (a missing port reads as -1). */
  predicate Differs(t: Tables, t': Tables, id: int, k: int) {
    CellOr(t'.dv, id, k, 0) != CellOr(t.dv, id, k, 0) || EntryOr(t'.routes, k, -1) != EntryOr(t.routes, k, -1)
  }

  /** The `renewed` flag is raised exactly when some destination in
      `i..count` other than the router itself ends with a different own
      cost or a different chosen port. */
  lemma {:induction false} RecomputeReportsChange(mode: Absent, id: int, i: int, count: int,
                                                  nbr: map<int, int>, cost: map<int, int>, t: Tables)
    ensures var (t', changed) := Recompute(mode, id, i, count, nbr, cost, t);
      changed <==> (exists k :: i <= k <= count && k != id && Differs(t, t', id, k))
    decreases count - i + 1
  {
    var (t', changed) := Recompute(mode, id, i, count, nbr, cost, t);
    if i > count {
    } else if i == id {
      assert (t', changed) == Recompute(mode, id, i + 1, count, nbr, cost, t);
      RecomputeReportsChange(mode, id, i + 1, count, nbr, cost, t);
    } else {
      var t1 := RecomputeDest(mode, id, i, nbr, cost, t);
      var (t2, more) := Recompute(mode, id, i + 1, count, nbr, cost, t1);
      assert t2 == t' && changed == (Differs(t, t1, id, i) || more);
      RecomputeDestFrame(mode, id, i, nbr, cost, t);
      RecomputeFrame(mode, id, i + 1, count, nbr, cost, t1);
      RecomputeReportsChange(mode, id, i + 1, count, nbr, cost, t1);
      ChangeStep(t, t1, t', id, i, count, changed, more);
    }
  }

  /** The flag of the whole recomputation from the flag of destination `i`
      and the flag of the rest. */
  lemma ChangeStep(t: Tables, t1: Tables, t': Tables, id: int, i: int, count: int, changed: bool, more: bool)
    requires i != id && i <= count
    requires Framed(t, t1, id, i, i) && Framed(t1, t', id, i + 1, count)
    requires changed == (Differs(t, t1, id, i) || more)
    requires more <==> (exists k :: i + 1 <= k <= count && k != id && Differs(t1, t', id, k))
    ensures changed <==> (exists k :: i <= k <= count && k != id && Differs(t, t', id, k))
  {
    assert Look(t'.dv, id, i) == Look(t1.dv, id, i);
    assert Find(t'.routes, i) == Find(t1.routes, i);
    assert Differs(t, t', id, i) == Differs(t, t1, id, i);
    forall k | i + 1 <= k <= count && k != id
      ensures Differs(t1, t', id, k) == Differs(t, t', id, k)
    {
      assert Look(t1.dv, id, k) == Look(t.dv, id, k);
      assert Find(t1.routes, k) == Find(t.routes, k);
    }
  }

  // ---------------------------------------------------------------------
  // The Bellman-Ford characterisation

  /** What the own row would pay to reach `j` through port `p`: the port's
      cost plus the neighbour's advertised cost. */
  function Via(dv: Table, nbr: map<int, int>, cost: map<int, int>, p: int, j: int): int
    requires p in nbr
  {
    CostOf(cost, p) + CellOr(dv, nbr[p], j, DvInf)
  }

  /** Every neighbour is another router whose row holds destination `j`. */
  ghost predicate CellsKnown(dv: Table, id: int, nbr: map<int, int>, j: int) {
    forall p :: p in nbr ==> nbr[p] != id && Look(dv, nbr[p], j).Some?
  }

  /** The row holds every destination `1..count`. */
  ghost predicate RowHolds(row: map<int, int>, count: int) {
    forall j :: 1 <= j <= count ==> j in row
  }

  /** Every neighbour is another router whose row holds all of `1..count`. */
  ghost predicate RowsComplete(dv: Table, id: int, nbr: map<int, int>, count: int) {
    forall p :: p in nbr ==> nbr[p] != id && nbr[p] in dv && RowHolds(dv[nbr[p]], count)
  }

  /** Rows of routers other than `id` are the same in both tables. */
  ghost predicate NonOwnKept(dv: Table, dv': Table, id: int) {
    forall r :: r != id ==> (r in dv <==> r in dv') && (r in dv ==> dv'[r] == dv[r])
  }

  /** The own cell for `j` after trying the ports in `ports`, starting from
      `t`: never above the start, never above any port's offer, and when
      below the start, held by the first port in ascending order that
      offers exactly that cost; when not below the start, the forwarding
      entry is as it was. */
  ghost predicate ScanOutcome(t: Tables, t': Tables, id: int, j: int, ports: set<int>,
                              nbr: map<int, int>, cost: map<int, int>)
    requires ports <= nbr.Keys
  {
    var v := CellOr(t.dv, id, j, 0);
    var v' := CellOr(t'.dv, id, j, 0);
    && v' <= v
    && (forall p :: p in ports ==> v' <= Via(t'.dv, nbr, cost, p, j))
    && (v' < v ==> j in t'.routes && t'.routes[j] in ports && Via(t'.dv, nbr, cost, t'.routes[j], j) == v'
                   && forall q :: q in ports && q < t'.routes[j] ==> v' < Via(t'.dv, nbr, cost, q, j))
    && (v' == v ==> Find(t'.routes, j) == Find(t.routes, j))
  }

  lemma ViaKept(dv: Table, dv': Table, id: int, nbr: map<int, int>, cost: map<int, int>, j: int)
    requires NonOwnKept(dv, dv', id)
    requires forall p :: p in nbr ==> nbr[p] != id
    ensures forall p :: p in nbr ==> Via(dv', nbr, cost, p, j) == Via(dv, nbr, cost, p, j)
  {
    forall p | p in nbr
      ensures Via(dv', nbr, cost, p, j) == Via(dv, nbr, cost, p, j)
    {
      assert Look(dv', nbr[p], j) == Look(dv, nbr[p], j);
    }
  }

  /** With every neighbour cell known, one step adopts port `p` exactly when
      it is strictly cheaper than the current own cost. */
  lemma RelaxKnown(mode: Absent, id: int, j: int, p: int, nbr: map<int, int>, cost: map<int, int>, t: Tables)
    requires p in nbr && CellsKnown(t.dv, id, nbr, j) && Look(t.dv, id, j).Some?
    ensures var t1 := Relax(mode, id, j, p, nbr[p], CostOf(cost, p), t);
      var via := Via(t.dv, nbr, cost, p, j);
      if CellOr(t.dv, id, j, 0) > via then t1 == Tables(Put(t.dv, id, j, via), t.routes[j := p])
      else t1 == t
  {
    assert Look(t.dv, nbr[p], j).Some?;
  }

  lemma {:induction false} RelaxPortsBest(mode: Absent, id: int, j: int, ports: set<int>,
                                          nbr: map<int, int>, cost: map<int, int>, t: Tables)
    requires ports <= nbr.Keys
    requires CellsKnown(t.dv, id, nbr, j)
    requires Look(t.dv, id, j).Some?
    ensures var t' := RelaxPorts(mode, id, j, ports, nbr, cost, t);
      && NonOwnKept(t.dv, t'.dv, id)
      && Look(t'.dv, id, j).Some?
      && ScanOutcome(t, t', id, j, ports, nbr, cost)
    decreases ports
  {
    var t' := RelaxPorts(mode, id, j, ports, nbr, cost, t);
    if ports == {} {
      assert t' == t;
    } else {
      var p := SetMin(ports);
      var rest := ports - {p};
      var t1 := Relax(mode, id, j, p, nbr[p], CostOf(cost, p), t);
      RelaxKnown(mode, id, j, p, nbr, cost, t);
      assert NonOwnKept(t.dv, t1.dv, id);
      ViaKept(t.dv, t1.dv, id, nbr, cost, j);
      assert CellsKnown(t1.dv, id, nbr, j);
      RelaxPortsBest(mode, id, j, rest, nbr, cost, t1);
      assert t' == RelaxPorts(mode, id, j, rest, nbr, cost, t1);
      ViaKept(t1.dv, t'.dv, id, nbr, cost, j);
      ScanStep(t, t1, t', id, j, p, ports, nbr, cost);
    }
  }

  /** One step of the scan followed by the scan of the larger ports gives
      the outcome of the whole scan. */
  lemma ScanStep(t: Tables, t1: Tables, t': Tables, id: int, j: int, p: int, ports: set<int>,
                 nbr: map<int, int>, cost: map<int, int>)
    requires ports <= nbr.Keys && p in ports
    requires forall q :: q in ports ==> p <= q
    requires forall q :: q in nbr ==> Via(t1.dv, nbr, cost, q, j) == Via(t.dv, nbr, cost, q, j)
    requires forall q :: q in nbr ==> Via(t'.dv, nbr, cost, q, j) == Via(t1.dv, nbr, cost, q, j)
    requires var v := CellOr(t.dv, id, j, 0);
      var via := Via(t.dv, nbr, cost, p, j);
      if v > via then CellOr(t1.dv, id, j, 0) == via && t1.routes == t.routes[j := p]
      else t1 == t
    requires ScanOutcome(t1, t', id, j, ports - {p}, nbr, cost)
    ensures ScanOutcome(t, t', id, j, ports, nbr, cost)
  {
    var rest := ports - {p};
    var via := Via(t.dv, nbr, cost, p, j);
    var v := CellOr(t.dv, id, j, 0);
    var v1 := CellOr(t1.dv, id, j, 0);
    var v' := CellOr(t'.dv, id, j, 0);
    assert v1 <= v && v1 <= via;
    assert Via(t'.dv, nbr, cost, p, j) == via;
    forall q | q in ports
      ensures v' <= Via(t'.dv, nbr, cost, q, j)
    {
      if q != p {
        assert q in rest;
      }
    }
    if v' < v {
      if v' == v1 {
        assert Find(t'.routes, j) == Find(t1.routes, j);
        assert t'.routes[j] == p;
      } else {
        assert t'.routes[j] in rest;
        forall q | q in ports && q < t'.routes[j]
          ensures v' < Via(t'.dv, nbr, cost, q, j)
        {
          if q != p {
            assert q in rest;
          }
        }
      }
    }
    if v' == v {
      assert v1 == v && t1 == t;
    }
  }

  /** The Bellman-Ford relation for destination `j`: the own cost is the
      minimum of `DV_INF` and every port's offer; when it is below `DV_INF`,
      the forwarding entry is the first port in ascending order offering
      exactly that cost (ties go to the smaller port because only a strict
      improvement replaces the current choice); when it is `DV_INF`, the
      forwarding entry is whatever it was in `before`. */
  ghost predicate BestRoute(t: Tables, before: map<int, int>, id: int, j: int,
                            nbr: map<int, int>, cost: map<int, int>)
  {
    var v := CellOr(t.dv, id, j, 0);
    && Look(t.dv, id, j).Some?
    && v <= DvInf
    && (forall p :: p in nbr ==> v <= Via(t.dv, nbr, cost, p, j))
    && (v < DvInf ==> j in t.routes && t.routes[j] in nbr && Via(t.dv, nbr, cost, t.routes[j], j) == v
                      && forall q :: q in nbr && q < t.routes[j] ==> v < Via(t.dv, nbr, cost, q, j))
    && (v == DvInf ==> Find(t.routes, j) == Find(before, j))
  }

  lemma RecomputeDestBest(mode: Absent, id: int, j: int, nbr: map<int, int>, cost: map<int, int>, t: Tables)
    requires CellsKnown(t.dv, id, nbr, j)
    ensures var t' := RecomputeDest(mode, id, j, nbr, cost, t);
      && NonOwnKept(t.dv, t'.dv, id)
      && (forall k :: k != j ==> Look(t'.dv, id, k) == Look(t.dv, id, k))
      && (forall k :: k != j ==> Find(t'.routes, k) == Find(t.routes, k))
      && BestRoute(t', t.routes, id, j, nbr, cost)
  {
    var t0 := t.(dv := Put(t.dv, id, j, DvInf));
    assert NonOwnKept(t.dv, t0.dv, id);
    assert CellsKnown(t0.dv, id, nbr, j) by {
      forall p | p in nbr
        ensures Look(t0.dv, nbr[p], j).Some?
      {
        assert Look(t0.dv, nbr[p], j) == Look(t.dv, nbr[p], j);
      }
    }
    RelaxPortsBest(mode, id, j, nbr.Keys, nbr, cost, t0);
    RelaxPortsFrame(mode, id, j, nbr.Keys, nbr, cost, t0);
  }

  lemma BestRouteKept(t: Tables, t': Tables, before: map<int, int>, id: int, j: int,
                      nbr: map<int, int>, cost: map<int, int>)
    requires BestRoute(t, before, id, j, nbr, cost)
    requires Look(t'.dv, id, j) == Look(t.dv, id, j)
    requires Find(t'.routes, j) == Find(t.routes, j)
    requires NonOwnKept(t.dv, t'.dv, id)
    requires forall p :: p in nbr ==> nbr[p] != id
    ensures BestRoute(t', before, id, j, nbr, cost)
  {
    ViaKept(t.dv, t'.dv, id, nbr, cost, j);
    if j in t.routes {
      assert t'.routes[j] == t.routes[j];
    }
  }

  lemma RowsCompleteKnown(dv: Table, id: int, nbr: map<int, int>, count: int, j: int)
    requires RowsComplete(dv, id, nbr, count) && 1 <= j <= count
    ensures CellsKnown(dv, id, nbr, j)
  {
  }

  lemma RowsCompleteKept(dv: Table, dv': Table, id: int, nbr: map<int, int>, count: int)
    requires RowsComplete(dv, id, nbr, count) && NonOwnKept(dv, dv', id)
    ensures RowsComplete(dv', id, nbr, count)
  {
    forall p | p in nbr
      ensures nbr[p] in dv' && dv'[nbr[p]] == dv[nbr[p]]
    {
    }
  }

  lemma BestRoutesRebased(t: Tables, t1: Tables, t': Tables, id: int, i: int, count: int,
                          nbr: map<int, int>, cost: map<int, int>)
    requires AllBest(t', t1.routes, id, i, count, nbr, cost)
    requires forall k :: k != i - 1 ==> Find(t1.routes, k) == Find(t.routes, k)
    ensures AllBest(t', t.routes, id, i, count, nbr, cost)
  {
    forall k | i <= k <= count && k != id
      ensures BestRoute(t', t.routes, id, k, nbr, cost)
    {
      assert BestRoute(t', t1.routes, id, k, nbr, cost);
      assert Find(t1.routes, k) == Find(t.routes, k);
    }
  }

  /** Every destination in `lo..hi` other than the router itself satisfies
      the Bellman-Ford relation. */
  ghost predicate AllBest(t: Tables, before: map<int, int>, id: int, lo: int, hi: int,
                          nbr: map<int, int>, cost: map<int, int>)
  {
    forall k :: lo <= k <= hi && k != id ==> BestRoute(t, before, id, k, nbr, cost)
  }

  lemma AllBestWiden(t: Tables, before: map<int, int>, id: int, lo: int, hi: int,
                     nbr: map<int, int>, cost: map<int, int>)
    requires AllBest(t, before, id, lo + 1, hi, nbr, cost) && lo == id
    ensures AllBest(t, before, id, lo, hi, nbr, cost)
  {
  }

  /** Full recomputation: when every neighbour is another router with a
      complete row, afterwards every destination in `i..count` other than
      the router itself satisfies the Bellman-Ford relation, and no other
      router's row has changed. */
  lemma {:induction false} RecomputeBest(mode: Absent, id: int, i: int, count: int,
                                         nbr: map<int, int>, cost: map<int, int>, t: Tables)
    requires 1 <= i
    requires RowsComplete(t.dv, id, nbr, count)
    ensures var t' := Recompute(mode, id, i, count, nbr, cost, t).0;
      && NonOwnKept(t.dv, t'.dv, id)
      && AllBest(t', t.routes, id, i, count, nbr, cost)
    decreases count - i + 1, 1
  {
    var t' := Recompute(mode, id, i, count, nbr, cost, t).0;
    if i > count {
      assert t' == t;
    } else if i == id {
      assert t' == Recompute(mode, id, i + 1, count, nbr, cost, t).0;
      RecomputeBest(mode, id, i + 1, count, nbr, cost, t);
      AllBestWiden(t', t.routes, id, i, count, nbr, cost);
    } else {
      RecomputeBestDest(mode, id, i, count, nbr, cost, t);
    }
  }

  /** The case of `RecomputeBest` where destination `i` is recomputed. */
  lemma {:induction false} RecomputeBestDest(mode: Absent, id: int, i: int, count: int,
                                             nbr: map<int, int>, cost: map<int, int>, t: Tables)
    requires 1 <= i <= count && i != id
    requires RowsComplete(t.dv, id, nbr, count)
    ensures var t' := Recompute(mode, id, i, count, nbr, cost, t).0;
      && NonOwnKept(t.dv, t'.dv, id)
      && AllBest(t', t.routes, id, i, count, nbr, cost)
    decreases count - i + 1, 0
  {
    var t1 := RecomputeDest(mode, id, i, nbr, cost, t);
    var t' := Recompute(mode, id, i + 1, count, nbr, cost, t1).0;
    assert t' == Recompute(mode, id, i, count, nbr, cost, t).0;
    RowsCompleteKnown(t.dv, id, nbr, count, i);
    RecomputeDestBest(mode, id, i, nbr, cost, t);
    RowsCompleteKept(t.dv, t1.dv, id, nbr, count);
    RecomputeBest(mode, id, i + 1, count, nbr, cost, t1);
    RecomputeFrame(mode, id, i + 1, count, nbr, cost, t1);
    BestStep(t, t1, t', id, i, count, nbr, cost);
  }

  /** The Bellman-Ford relation for destination `i` and for the rest,
      established on successive tables, holds on the final one. */
  lemma BestStep(t: Tables, t1: Tables, t': Tables, id: int, i: int, count: int,
                 nbr: map<int, int>, cost: map<int, int>)
    requires forall p :: p in nbr ==> nbr[p] != id
    requires NonOwnKept(t.dv, t1.dv, id) && NonOwnKept(t1.dv, t'.dv, id)
    requires forall k :: k != i ==> Find(t1.routes, k) == Find(t.routes, k)
    requires BestRoute(t1, t.routes, id, i, nbr, cost)
    requires Framed(t1, t', id, i + 1, count)
    requires AllBest(t', t1.routes, id, i + 1, count, nbr, cost)
    ensures NonOwnKept(t.dv, t'.dv, id)
    ensures AllBest(t', t.routes, id, i, count, nbr, cost)
  {
    BestRouteKept(t1, t', t.routes, id, i, nbr, cost);
    BestRoutesRebased(t, t1, t', id, i + 1, count, nbr, cost);
  }
}
