/** The learning switch: a table from source MAC address to the port it was
    last seen on, with an aging counter that control frames decrement. */
module LearningSwitch {
  import opened Bytes

  /** A MAC address: six bytes copied into a zeroed `uint64_t`. */
  type Mac = x: int | 0 <= x < 0x1_0000_0000_0000

  /** The counter a learned or refreshed entry gets. */
  const FreshCounter := 10

  /** Destination MAC, source MAC and the 16-bit EtherType. */
  const MinFrame := 14

  /** `ForwardingEntry`: the learned port and the aging counter. */
  datatype Entry = Entry(outPort: int, counter: int)

  datatype Switch = Switch(numPorts: int, table: map<Mac, Entry>)

  /** `CreateSwitchObject`: no ports, an empty table. */
  function CreateSwitch(): (sw: Switch)
    ensures sw.numPorts == 0 && sw.table == map[]
  {
    Switch(0, map[])
  }

  /** `InitSwitch(numPorts)`: the port count is set and the table emptied. */
  function InitSwitch(sw: Switch, numPorts: int): (sw': Switch)
    ensures sw'.numPorts == numPorts && sw'.table == map[]
  {
    sw.(numPorts := numPorts, table := map[])
  }

  function DestMac(frame: seq<Byte>): Mac
    requires |frame| >= 6
  {
    Pow256Values();
    LeValue(frame[0..6])
  }

  function SourceMac(frame: seq<Byte>): Mac
    requires |frame| >= 12
  {
    Pow256Values();
    LeValue(frame[6..12])
  }

  function EtherType(frame: seq<Byte>): nat
    requires |frame| >= MinFrame
  {
    LeValue(frame[12..14])
  }

  /** The counter after one aging step: one less, but never below 0. */
  function Decayed(e: Entry): int {
    if e.counter - 1 > 0 then e.counter - 1 else 0
  }

  /** One aging step: every counter is decremented with a floor of 0 and
      the entries that reach 0 are removed. */
  function Age(table: map<Mac, Entry>): map<Mac, Entry> {
    map m | m in table && Decayed(table[m]) != 0 :: table[m].(counter := Decayed(table[m]))
  }

  /** Learning the source: an unseen address is added on the arrival port;
      a known one keeps its port and is refreshed. */
  function Learn(table: map<Mac, Entry>, src: Mac, inPort: int): map<Mac, Entry> {
    if src in table then table[src := table[src].(counter := FreshCounter)]
    else table[src := Entry(inPort, FreshCounter)]
  }

  /** `ProcessFrame(inPort, framePtr)` for a switch whose control frames
      carry the EtherType `controlType`: the new switch and the verdict (a
      port, 0 to broadcast, -1 to drop). */
  function ProcessFrame(sw: Switch, controlType: nat, inPort: int, frame: seq<Byte>): (res: (Switch, int))
    requires |frame| >= MinFrame
    ensures res.0.numPorts == sw.numPorts
  {
    if EtherType(frame) == controlType then (sw.(table := Age(sw.table)), -1)
    else
      var t := Learn(sw.table, SourceMac(frame), inPort);
      var dst := DestMac(frame);
      var verdict := if dst !in t then 0 else if t[dst].outPort == inPort then -1 else t[dst].outPort;
      (sw.(table := t), verdict)
  }

  // ---------------------------------------------------------------------
  // Properties

  /** A control frame ages the table and is dropped: an entry survives
      exactly when its counter was at least 2, one lower afterwards, on
      the same port. */
  lemma AgingFrame(sw: Switch, controlType: nat, inPort: int, frame: seq<Byte>)
    requires |frame| >= MinFrame && EtherType(frame) == controlType
    ensures var (sw', verdict) := ProcessFrame(sw, controlType, inPort, frame);
      && verdict == -1
      && (forall m :: m in sw'.table <==> m in sw.table && sw.table[m].counter >= 2)
      && (forall m :: m in sw'.table ==>
            sw'.table[m] == Entry(sw.table[m].outPort, sw.table[m].counter - 1))
  {
  }

  /** `n` consecutive aging steps. */
  function AgeTimes(table: map<Mac, Entry>, n: nat): map<Mac, Entry> {
    if n == 0 then table else Age(AgeTimes(table, n - 1))
  }

  /** After `n >= 1` aging steps an entry is still there exactly when its
      counter exceeded `n`, and its counter is `n` lower. In particular an
      entry is forgotten after at most 10 steps unless refreshed. */
  lemma {:induction false} AgingRepeated(table: map<Mac, Entry>, n: nat)
    requires n >= 1
    ensures forall m :: m in AgeTimes(table, n) <==> m in table && table[m].counter > n
    ensures forall m :: m in AgeTimes(table, n) ==>
      AgeTimes(table, n)[m] == Entry(table[m].outPort, table[m].counter - n)
  {
    if n == 1 {
      assert AgeTimes(table, 0) == table;
    } else {
      AgingRepeated(table, n - 1);
      var t := AgeTimes(table, n - 1);
      assert AgeTimes(table, n) == Age(t);
      forall m: Mac
        ensures m in Age(t) <==> m in table && table[m].counter > n
      {
        if m in t {
          assert t[m].counter == table[m].counter - (n - 1);
          assert Decayed(t[m]) == if table[m].counter - n > 0 then table[m].counter - n else 0;
          assert m in Age(t) <==> Decayed(t[m]) != 0;
        } else {
          assert m !in Age(t);
        }
      }
    }
  }

  /** A data frame teaches the switch its source: the source is in the
      table with a fresh counter, on its old port if it was known and on
      the arrival port otherwise; no other entry changes. */
  lemma LearningFrame(sw: Switch, controlType: nat, inPort: int, frame: seq<Byte>)
    requires |frame| >= MinFrame && EtherType(frame) != controlType
    ensures var t' := ProcessFrame(sw, controlType, inPort, frame).0.table;
      var src := SourceMac(frame);
      && t'.Keys == sw.table.Keys + {src}
      && t'[src].counter == FreshCounter
      && t'[src].outPort == (if src in sw.table then sw.table[src].outPort else inPort)
      && forall m :: m in sw.table && m != src ==> t'[m] == sw.table[m]
  {
  }

  /** The verdict for a data frame, in terms of the table before it: an
      unknown destination (other than the frame's own source) is flooded,
      a destination learned on the arrival port is dropped, any other is
      sent to its learned port. */
  lemma ForwardingVerdict(sw: Switch, controlType: nat, inPort: int, frame: seq<Byte>)
    requires |frame| >= MinFrame && EtherType(frame) != controlType
    ensures var verdict := ProcessFrame(sw, controlType, inPort, frame).1;
      var src := SourceMac(frame);
      var dst := DestMac(frame);
      var port := if dst in sw.table then sw.table[dst].outPort else inPort;
      && (dst !in sw.table && dst != src ==> verdict == 0)
      && (dst in sw.table || dst == src ==> verdict == (if port == inPort then -1 else port))
  {
  }

  /** Every counter in the table is between 1 and 10. */
  ghost predicate CountersValid(table: map<Mac, Entry>) {
    forall m :: m in table ==> 1 <= table[m].counter <= FreshCounter
  }

  /** Every frame keeps the counters between 1 and 10, so an entry whose
      counter reaches 0 is never kept. */
  lemma CountersStayValid(sw: Switch, controlType: nat, inPort: int, frame: seq<Byte>)
    requires |frame| >= MinFrame && CountersValid(sw.table)
    ensures CountersValid(ProcessFrame(sw, controlType, inPort, frame).0.table)
  {
  }

  /** A station heard on port `p` is then reached through `p`: a data frame
      for it arriving on another port goes to `p`, and one arriving on `p`
      itself is dropped, as long as no aging step intervenes. */
  lemma LearnThenForward(sw: Switch, controlType: nat, p: int, heard: seq<Byte>, q: int, sent: seq<Byte>)
    requires |heard| >= MinFrame && EtherType(heard) != controlType
    requires |sent| >= MinFrame && EtherType(sent) != controlType
    requires SourceMac(heard) !in sw.table && DestMac(sent) == SourceMac(heard)
    ensures var sw1 := ProcessFrame(sw, controlType, p, heard).0;
      && SourceMac(heard) in sw1.table
      && ProcessFrame(sw1, controlType, q, sent).1 == (if q == p then -1 else p)
  {
    var sw1 := ProcessFrame(sw, controlType, p, heard).0;
    assert sw1.table[SourceMac(heard)].outPort == p;
  }
}
