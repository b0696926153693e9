/** Measured against a frame that travels through a tree of symmetric cables, the delays
    that `DistributedClock.ConfigDc` computes are the true ones. */
module PropagationDelay {
  import opened EcTypes
  import opened NetworkTree
  import opened SlaveList
  import opened DistributedClock
  import Topology

  /** Local time of slave `st` when the frame arrives, as its 32-bit register shows it. */
  function Arrives(st: Station): int
    requires st.node.Slave?
  {
    Int32(st.arrival + st.node.clock)
  }

  // How long after its arrival the frame is back at ports 3, 1 and 2.
  function Back3(t: Line): nat
    requires t.Slave?
  {
    RoundTrip(t.port3)
  }

  function Back1(t: Line): nat
    requires t.Slave?
  {
    Back3(t) + RoundTrip(t.port1)
  }

  function Back2(t: Line): nat
    requires t.Slave?
  {
    Back1(t) + RoundTrip(t.port2)
  }

  /** What the receive time registers hold after the frame has passed. The registers of
      ports without a link hold anything. */
  predicate Latched(st: Station, t: Times)
    requires st.node.Slave?
  {
    var at := st.arrival + st.node.clock;
    && Int32(t.A) == Int32(at)
    && (st.node.port3.Slave? ==> Int32(t.D) == Int32(at + Back3(st.node)))
    && (st.node.port1.Slave? ==> Int32(t.B) == Int32(at + Back1(st.node)))
    && (st.node.port2.Slave? ==> Int32(t.C) == Int32(at + Back2(st.node)))
  }

  /** The local clock does not pass the end of the 32-bit range while the frame is behind the slave. */
  predicate NoOverflow(st: Station)
    requires st.node.Slave?
  {
    Arrives(st) + Back2(st.node) < 0x8000_0000
  }

  /** The slave list that discovery leaves for the network `s`, all of it with clocks. */
  ghost predicate Describes(list: seq<Slave>, s: seq<Station>) {
    && |list| == |s|
    && forall k :: 1 <= k < |s| && s[k].node.Slave? ==>
      && list[k].topology == Links(s[k].node) && list[k].activeports == Ports(s[k].node)
      && list[k].parent == s[k].parent && list[k].hasdc
  }

  ghost predicate AllLatched(s: seq<Station>, times: seq<Times>) {
    && |times| == |s|
    && forall k :: 1 <= k < |s| && s[k].node.Slave? ==> Latched(s[k], times[k]) && NoOverflow(s[k])
  }

  /** The ports of slave `k` whose children have numbers from `i` on. */
  function Waiting(s: seq<Station>, k: nat, i: nat): bv8
    requires k < |s| && s[k].node.Slave?
  {
    (if s[k].node.port3.Slave? && At3(s, k) >= i then 0x08 else 0)
    | (if s[k].node.port1.Slave? && At1(s, k) >= i then 0x02 else 0)
    | (if s[k].node.port2.Slave? && At2(s, k) >= i then 0x04 else 0)
  }

  /** The registers of a slave record tell the times of `st`, and its entry port is port 0. */
  predicate Stamped(r: Slave, st: Station)
    requires st.node.Slave?
  {
    && r.entryport == 0
    && r.DCrtA == Arrives(st)
    && (st.node.port3.Slave? ==> r.DCrtD == Arrives(st) + Back3(st.node))
    && (st.node.port1.Slave? ==> r.DCrtB == Arrives(st) + Back1(st.node))
    && (st.node.port2.Slave? ==> r.DCrtC == Arrives(st) + Back2(st.node))
  }

  /** Slave `k` is measured, and its children before number `i` have taken their ports. */
  predicate Measured(r: Slave, s: seq<Station>, k: nat, i: nat)
    requires 1 <= k < |s| && s[k].node.Slave?
  {
    && Stamped(r, s[k])
    && r.consumedports == Waiting(s, k, i)
    && r.pdelay == s[k].arrival - s[1].arrival
    && (k > 1 ==> r.parentport == s[k].port)
  }

  /** Without overflow, the register shows a later moment as the arrival plus the time passed. */
  lemma {:induction false} LaterOnRegister(at: int, passed: nat)
    requires Int32(at) + passed < 0x8000_0000
    ensures Int32(at + passed) == Int32(at) + passed
  {
  }

  /** The frame is seen first at port 0, so that is where it entered. */
  lemma {:induction false} EntersAtPort0(r: Slave, st: Station, t: Times)
    requires st.node.Slave? && Latched(st, t) && NoOverflow(st)
    requires r.activeports == Ports(st.node)
    ensures Stamped(Enter(Stamp(r, t)), st)
    ensures Enter(Stamp(r, t)).entryport == 0
  {
    var at := st.arrival + st.node.clock;
    LaterOnRegister(at, Back3(st.node));
    LaterOnRegister(at, Back1(st.node));
    LaterOnRegister(at, Back2(st.node));
  }

  /** Once port 0 is consumed, the ports of all children are waiting. */
  lemma {:induction false} AllChildrenWait(s: seq<Station>, k: nat)
    requires k < |s| && s[k].node.Slave?
    ensures Ports(s[k].node) & !PortMask(0) == Waiting(s, k, k + 1)
  {
    assert PortMask(0) == 0x01;
  }

  lemma {:induction false} EnterConsumesPort0(r: Slave, s: seq<Station>, i: nat, t: Times)
    requires i < |s| && s[i].node.Slave?
    requires Enter(Stamp(r, t)).entryport == 0 && r.consumedports == Ports(s[i].node)
    ensures var e := Enter(Stamp(r, t));
            && e.consumedports == Waiting(s, i, i + 1) && e.pdelay == r.pdelay
            && e.topology == r.topology && e.activeports == r.activeports
            && e.parent == r.parent && e.hasdc == r.hasdc
  {
    AllChildrenWait(s, i);
  }

  /** The first open port of the parent is the one the next child hangs on. */
  lemma {:induction false} NextChildTakesItsPort(s: seq<Station>, p: nat, i: nat)
    requires 1 <= p < i < |s| && FrameOrder(s, p) && IsChild(s, p, i)
    ensures OpenPort(Waiting(s, p, i)) == s[i].port
    ensures Consume(Waiting(s, p, i)) == Waiting(s, p, i + 1)
  {
  }

  /** Nobody but its parent is waiting for slave `i`. */
  lemma {:induction false} OthersKeepWaiting(s: seq<Station>, k: nat, i: nat)
    requires 1 <= k < |s| && i < |s| && FrameOrder(s, k) && s[i].parent != k
    ensures Waiting(s, k, i) == Waiting(s, k, i + 1)
  {
  }

  /** Between the previous port and the child's port, the parent saw the frame's way to the
      child and back; before that, it waited for the earlier children. */
  lemma {:induction false} TimesAtParent(s: seq<Station>, p: nat, i: nat, up: Slave)
    requires 1 <= p < i < |s| && FrameOrder(s, p) && IsChild(s, p, i)
    requires Stamped(up, s[p]) && up.activeports == Ports(s[p].node)
    ensures var prev := PrevPort(up, s[i].port);
            var waited := s[i].arrival - s[i].node.cable - s[p].arrival;
            && PortTime(up, s[i].port) - PortTime(up, prev) == RoundTrip(s[i].node)
            && PortTime(up, prev) - PortTime(up, up.entryport) == waited >= 0
            && (i - p <= 1 ==> waited == 0)
            && waited + RoundTrip(s[i].node) <= Back2(s[p].node)
  {
  }

  /** The last port of a slave saw the frame when it had been at all children. */
  lemma {:induction false} TimesAtSlave(r: Slave, st: Station)
    requires st.node.Slave? && Stamped(r, st)
    requires r.activeports == Ports(st.node) && r.topology == Links(st.node)
    ensures if r.topology > 1 then PortTime(r, PrevPort(r, r.entryport)) - PortTime(r, r.entryport) == Back2(st.node)
            else Back2(st.node) == 0
  {
  }

  /** The delay of a child, from the times at its own ports and at its parent's. */
  lemma {:induction false} DelayIsTrue(s: seq<Station>, p: nat, i: nat, up: Slave, me: Slave)
    requires 1 <= p < i < |s| && FrameOrder(s, p) && FrameOrder(s, i) && IsChild(s, p, i)
    requires Stamped(up, s[p]) && up.activeports == Ports(s[p].node)
    requires Stamped(me, s[i]) && me.activeports == Ports(s[i].node)
    requires me.topology == Links(s[i].node) && me.parentport == s[i].port
    requires 0 <= up.pdelay && up.pdelay + Back2(s[p].node) < 0x8000_0000
    ensures Delay(up, me, i - p > 1) == up.pdelay + s[i].arrival - s[p].arrival
  {
    hide PortTime;
    hide PrevPort;
    hide Stamped;
    hide Hangs;
    hide Links;
    hide Ports;
    hide RoundTrip;
    hide Back2;
    hide Int32;
    TimesAtParent(s, p, i, up);
    TimesAtSlave(me, s[i]);
    RoundTripOf(s[i].node);
    EntryIsZero(me, s[i]);
  }

  lemma {:induction false} RoundTripOf(t: Line)
    requires t.Slave?
    ensures RoundTrip(t) == 2 * t.cable + Back2(t)
  {
  }

  lemma {:induction false} EntryIsZero(r: Slave, st: Station)
    requires st.node.Slave? && Stamped(r, st)
    ensures r.entryport == 0
  {
  }

  /** All of the frame's stay at slave `k` lies within its stay at slave 1. */
  lemma {:induction false} StaysWithinFirst(s: seq<Station>, t: Line, k: nat)
    requires IsNetwork(s, t) && 1 <= k < |s| && FrameOrder(s, k) && FrameOrder(s, 1)
    ensures 0 <= s[k].arrival - s[1].arrival
    ensures s[k].arrival - s[1].arrival + Back2(s[k].node) <= Back2(s[1].node)
  {
    if k > 1 {
      ParentInside(s, t, 1, k);
      StaysWithinFirst(s, t, s[k].parent);
      ChildWithinParent(s, s[k].parent, k);
    }
  }

  lemma {:induction false} ChildWithinParent(s: seq<Station>, p: nat, i: nat)
    requires 1 <= p < i < |s| && FrameOrder(s, p) && FrameOrder(s, i) && IsChild(s, p, i)
    ensures 0 <= s[i].arrival - s[p].arrival
    ensures s[i].arrival - s[p].arrival + Back2(s[i].node) <= Back2(s[p].node)
  {
  }

  /** The measured part of the list after `DcRun` up to number `i`. */
  ghost predicate MeasuredUpTo(list: seq<Slave>, s: seq<Station>, i: nat)
    requires |list| == |s|
  {
    forall k :: 1 <= k < i <= |s| && s[k].node.Slave? ==> Measured(list[k], s, k, i)
  }

  /** The fields a measurement reads do not change when slave `i` joins the list of clocks. */
  lemma {:induction false} JoinKeepsMeasured(list: seq<Slave>, s: seq<Station>, i: nat, prev: nat)
    requires |list| == |s| && 1 <= i < |list| && prev < i
    requires MeasuredUpTo(list, s, i)
    ensures MeasuredUpTo(Join(list, i, prev), s, i)
    ensures Join(list, i, prev)[i].pdelay == list[i].pdelay
    ensures Join(list, i, prev)[i].consumedports == list[i].consumedports
  {
    var l := Join(list, i, prev);
    forall k | 1 <= k < i && s[k].node.Slave? ensures Measured(l[k], s, k, i) {
      assert Measured(list[k], s, k, i);
    }
  }

  /** Slave `i` takes its port from its parent and gets its delay; nobody else changes. */
  lemma {:induction false} ChildIsMeasured(list: seq<Slave>, s: seq<Station>, t: Line, i: nat)
    requires IsNetwork(s, t) && Describes(list, s)
    requires 1 < i < |s| && FrameOrder(s, i) && FrameOrder(s, 1)
    requires Back2(s[1].node) < 0x8000_0000
    requires MeasuredUpTo(list, s, i)
    requires Stamped(list[i], s[i]) && list[i].consumedports == Waiting(s, i, i + 1)
    requires s[i].parent < i
    ensures MeasuredUpTo(Measure(list, i, i, s[i].parent), s, i + 1)
  {
    hide Measure;
    hide Waiting;
    hide Links;
    hide Ports;
    hide Stamped;
    hide Back2;
    hide RoundTrip;
    hide Hangs;
    assert i < End(s, 1);
    hide Size;
    ParentInside(s, t, 1, i);
    hide IsChild;
    assert Measured(list[s[i].parent], s, s[i].parent, i);
    hide Measured;
    PairIsMeasured(list, s, t, i, s[i].parent);
    hide FrameOrder;
    hide Describes;
    OthersStayMeasured(list, Measure(list, i, i, s[i].parent), s, t, i);
  }

  /** What measuring slave `i` leaves of its parent, and of itself. */
  lemma {:induction false} PairIsMeasured(list: seq<Slave>, s: seq<Station>, t: Line, i: nat, p: nat)
    requires IsNetwork(s, t) && Describes(list, s) && 1 <= p < i < |s|
    requires FrameOrder(s, p) && FrameOrder(s, i) && FrameOrder(s, 1) && IsChild(s, p, i)
    requires Back2(s[1].node) < 0x8000_0000 && Measured(list[p], s, p, i)
    requires Stamped(list[i], s[i]) && list[i].consumedports == Waiting(s, i, i + 1)
    ensures var r := Measure(list, i, i, p);
            && Measured(r[p], s, p, i + 1) && Measured(r[i], s, i, i + 1)
            && forall k {:trigger r[k]} :: 1 <= k < i && k != p ==> r[k] == list[k]
  {
    hide Delay;
    hide OpenPort;
    hide Consume;
    hide Waiting;
    hide Links;
    hide Ports;
    hide Stamped;
    hide RoundTrip;
    hide Size;
    hide Hangs;
    var r := Measure(list, i, i, p);
    NextChildTakesItsPort(s, p, i);
    HasTwoLinks(s, p, i);
    StaysWithinFirst(s, t, p);
    hide IsNetwork;
    hide IsChild;
    var up := list[p].(consumedports := Consume(list[p].consumedports));
    var me := list[i].(parentport := s[i].port);
    assert r == list[p := up][i := me.(pdelay := Delay(up, me, i - p > 1))];
    hide Measure;
    SameStamp(list[p], up, s[p]);
    SameStamp(list[i], me, s[i]);
    SameStamp(list[i], r[i], s[i]);
    DelayIsTrue(s, p, i, up, me);
  }

  lemma {:induction false} OthersStayMeasured(
    list: seq<Slave>, r: seq<Slave>, s: seq<Station>, t: Line, i: nat)
    requires IsNetwork(s, t) && |r| == |list| == |s| && 1 < i < |s| && s[i].node.Slave?
    requires MeasuredUpTo(list, s, i)
    requires var p := s[i].parent;
             && 1 <= p < i && s[p].node.Slave?
             && Measured(r[p], s, p, i + 1) && Measured(r[i], s, i, i + 1)
             && forall k {:trigger r[k]} :: 1 <= k < i && k != p ==> r[k] == list[k]
    ensures MeasuredUpTo(r, s, i + 1)
  {
    hide Waiting;
    hide Stamped;
    hide Hangs;
    forall k | 1 <= k < i + 1 && s[k].node.Slave? ensures Measured(r[k], s, k, i + 1) {
      if k != i && k != s[i].parent {
        assert Measured(list[k], s, k, i);
        assert FrameOrder(s, k);
        OthersKeepWaiting(s, k, i);
      }
    }
  }

  lemma {:induction false} SameStamp(a: Slave, b: Slave, st: Station)
    requires st.node.Slave? && Stamped(a, st)
    requires b == a.(consumedports := b.consumedports, parentport := b.parentport, pdelay := b.pdelay)
    ensures Stamped(b, st)
  {
  }

  /** A slave with a child has more than one link. */
  lemma {:induction false} HasTwoLinks(s: seq<Station>, p: nat, i: nat)
    requires p < |s| && s[p].node.Slave? && IsChild(s, p, i)
    ensures Links(s[p].node) > 1
  {
  }

  /** Handling slave `i` keeps the earlier ones measured, up to the port it takes, and
      measures `i`. */
  lemma {:induction false} StepMeasures(
    list: seq<Slave>, s: seq<Station>, t: Line, times: seq<Times>, i: nat, prev: nat)
    requires IsNetwork(s, t) && Describes(list, s) && AllLatched(s, times) && ParentsFirst(list)
    requires 1 <= i < |s| && prev < i && FrameOrder(s, i) && FrameOrder(s, 1)
    requires Back2(s[1].node) < 0x8000_0000
    requires list[i].consumedports == list[i].activeports
    requires i == 1 ==> list[i].pdelay == 0
    requires MeasuredUpTo(list, s, i)
    ensures MeasuredUpTo(ClockSlave(list, i, prev, times[i]), s, i + 1)
  {
    hide Join;
    hide Enter;
    hide Stamp;
    hide Measure;
    hide Waiting;
    hide Links;
    hide Ports;
    hide Stamped;
    hide Latched;
    var l1 := Join(list, i, prev);
    var l2 := l1[i := Enter(Stamp(l1[i], times[i]))];
    JoinKeepsMeasured(list, s, i, prev);
    EntersAtPort0(l1[i], s[i], times[i]);
    EnterConsumesPort0(l1[i], s, i, times[i]);
    if i > 1 {
      ParentInside(s, t, 1, i);
      var p := s[i].parent;
      assert DcParent(l2, i) == (i, p);
      ChildIsMeasured(l2, s, t, i);
    } else {
      assert DcParent(l2, i) == (1, 0);
    }
  }

  lemma {:induction false} RunMeasures(list: seq<Slave>, s: seq<Station>, t: Line, times: seq<Times>, n: nat)
    requires IsNetwork(s, t) && t.Slave?
    requires Describes(list, s) && AllLatched(s, times) && ParentsFirst(list)
    requires Back2(t) < 0x8000_0000 && list[1].pdelay == 0
    requires 1 <= n <= |s|
    ensures MeasuredUpTo(DcRun(list, times, n).list, s, n)
    ensures n == 1 ==> DcRun(list, times, n).list[1] == list[1]
  {
    hide DcStep;
    hide Measured;
    hide Latched;
    hide NoOverflow;
    hide Links;
    hide Ports;
    if n > 1 {
      RunMeasures(list, s, t, times, n - 1);
      DcStepMeasures(DcRun(list, times, n - 1), s, t, times, n - 1);
    }
  }

  lemma {:induction false} DcStepMeasures(st: DcState, s: seq<Station>, t: Line, times: seq<Times>, i: nat)
    requires IsNetwork(s, t) && Describes(st.list, s) && AllLatched(s, times) && ParentsFirst(st.list)
    requires 1 <= i < |s| && st.prevDCslave < i && st.parenthold < i
    requires t.Slave? && Back2(t) < 0x8000_0000
    requires i == 1 ==> st.list[i].pdelay == 0
    requires MeasuredUpTo(st.list, s, i)
    ensures MeasuredUpTo(DcStep(st, i, times[i]).list, s, i + 1)
  {
    hide ClockSlave;
    hide PlainSlave;
    hide Measured;
    hide Links;
    hide Ports;
    hide Latched;
    hide NoOverflow;
    assert FrameOrder(s, i) && FrameOrder(s, 1);
    var l := st.list[i := st.list[i].(consumedports := st.list[i].activeports)];
    forall k | 1 <= k < i && s[k].node.Slave? ensures Measured(l[k], s, k, i) {
      assert Measured(st.list[k], s, k, i);
    }
    StepMeasures(l, s, t, times, i, st.prevDCslave);
  }

  /** For every tree of slaves with clocks, any clock offsets and any symmetric cables:
      each slave's delay is the frame's arrival there minus its arrival at slave 1, and the
      port on the parent is the one it hangs on. */
  lemma {:induction false} DelaysAreTrue(list: seq<Slave>, s: seq<Station>, t: Line, times: seq<Times>, k: nat)
    requires IsNetwork(s, t) && t.Slave?
    requires Describes(list, s) && AllLatched(s, times) && ParentsFirst(list)
    requires Back2(t) < 0x8000_0000 && list[1].pdelay == 0
    requires 1 <= k < |s|
    ensures var r := DcRun(list, times, |s|).list[k];
            && r.pdelay == s[k].arrival - s[1].arrival
            && r.entryport == 0
            && (k > 1 ==> r.parentport == s[k].port)
  {
    hide DcRun;
    RunMeasures(list, s, t, times, |s|);
    assert FrameOrder(s, k);
    assert Measured(DcRun(list, times, |s|).list[k], s, k, |s|);
  }

  /** The children of one parent are on distinct ports, in frame order. */
  lemma {:induction false} SiblingPortsInFrameOrder(s: seq<Station>, t: Line, i: nat, j: nat)
    requires IsNetwork(s, t) && 1 < i < j < |s| && s[i].parent == s[j].parent
    ensures 0 < PortOrder(s[i].port) < PortOrder(s[j].port) <= 3
  {
    assert FrameOrder(s, 1);
    ParentInside(s, t, 1, i);
    ParentInside(s, t, 1, j);
  }

  /** What the DL status register of a slave says: for each port, whether its loop is closed, and
      whether there is communication. A slave is linked to its parent at port 0. */
  ghost predicate Reports(d: bv16, t: Line)
    requires t.Slave?
  {
    && d & 0x0100 == 0 && d & 0x0200 != 0
    && (t.port1.Slave? <==> d & 0x0400 == 0 && d & 0x0800 != 0)
    && (t.port2.Slave? <==> d & 0x1000 == 0 && d & 0x2000 != 0)
    && (t.port3.Slave? <==> d & 0x4000 == 0 && d & 0x8000 != 0)
  }

  lemma {:induction false} ReportIsRead(d: bv16, t: Line)
    requires t.Slave? && Reports(d, t)
    ensures Topology.LinkCount(d) == Links(t) && Topology.ActivePorts(d) == Ports(t)
  {
    Topology.PortsRead(d);
    hide Topology.PortUp;
  }

  /** The DL status registers tell the links of the network. */
  ghost predicate StatusOf(dlstatus: seq<bv16>, s: seq<Station>) {
    |dlstatus| == |s| && forall k :: 1 <= k < |s| && s[k].node.Slave? ==> Reports(dlstatus[k], s[k].node)
  }

  /** Discovery leaves the description of the network that `DelaysAreTrue` starts from. */
  lemma {:induction false} DiscoveryDescribes(
    list: seq<Slave>, was: seq<Slave>, s: seq<Station>, t: Line, dlstatus: seq<bv16>)
    requires IsNetwork(s, t) && StatusOf(dlstatus, s)
    requires |list| == |was| == |s|
    requires forall k :: 1 <= k < |s| ==> was[k].hasdc && Topology.Discovered(list, k, was[k], dlstatus[k])
    ensures Describes(list, s) && ParentsFirst(list) && ClocksLinked(list)
    ensures forall k :: 1 <= k < |s| ==> list[k].pdelay == was[k].pdelay && list[k].hasdc
  {
    forall k | 1 <= k < |s|
      ensures list[k].pdelay == was[k].pdelay && list[k].activeports & 0x0f != 0
      ensures s[k].node.Slave? && list[k].parent == s[k].parent < k
      ensures list[k].topology == Links(s[k].node) && list[k].activeports == Ports(s[k].node) && list[k].hasdc
    {
      assert FrameOrder(s, k) && FrameOrder(s, 1);
      assert Topology.Discovered(list, k, was[k], dlstatus[k]);
      ReportIsRead(dlstatus[k], s[k].node);
      if k > 1 {
        ParentInside(s, t, 1, k);
        var topologies := Topology.Topologies(list);
        forall j | 1 <= j < |s| && s[j].node.Slave? ensures topologies[j] == Links(s[j].node) {
          ReportIsRead(dlstatus[j], s[j].node);
          assert Topology.Discovered(list, j, was[j], dlstatus[j]);
        }
        Topology.ScanFindsTreeParent(t, s, topologies, k, list[k].parent);
      }
    }
  }

  /** Discovery followed by the delay measurement, over any network `s` whose slaves all
      have clocks. */
  method MeasureNetwork(slavelist: array<Slave>, grouplist: array<GroupClock>, group: seq<nat>,
                        dlstatus: seq<bv16>, times: seq<Times>, ghost s: seq<Station>, ghost t: Line)
      returns (hasdc: bool)
    requires IsNetwork(s, t) && t.Slave? && StatusOf(dlstatus, s) && AllLatched(s, times)
    requires Back2(t) < 0x8000_0000
    requires slavelist.Length == |s| == |group| && grouplist.Length > 0
    requires forall k :: 0 <= k < |group| ==> group[k] < grouplist.Length
    requires forall k :: 1 <= k < |s| ==> slavelist[k].hasdc && slavelist[k].pdelay == 0
    modifies slavelist, grouplist
    ensures grouplist[group[1]] == GroupClock(true, 1)
    ensures forall k :: 0 <= k < |s| - 1 ==> slavelist[k].DCnext == k + 1
    ensures forall k :: 1 <= k < |s| ==> slavelist[k].DCprevious == k - 1
    ensures forall k :: 1 <= k < |s| ==>
      && slavelist[k].pdelay == s[k].arrival - s[1].arrival
      && slavelist[k].parent == s[k].parent
      && (k > 1 ==> slavelist[k].parentport == s[k].port)
  {
    hide Topology.Discovered;
    hide DcRun;
    hide ClocksInOrder;
    Topology.ReadTopology(slavelist, dlstatus);
    ghost var found := slavelist[..];
    DiscoveryDescribes(found, old(slavelist[..]), s, t, dlstatus);
    assert found[1].pdelay == 0;
    hasdc := ConfigDc(slavelist, grouplist, group, times);
    assert found[1].hasdc;
    assert forall k :: 1 <= k < |s| ==> slavelist[..][k].hasdc;
    AllLinked(slavelist[..]);
    forall k | 1 <= k < |s|
      ensures slavelist[k].pdelay == s[k].arrival - s[1].arrival
      ensures slavelist[k].parent == s[k].parent
      ensures k > 1 ==> slavelist[k].parentport == s[k].port
    {
      assert FrameOrder(s, k);
      DelaysAreTrue(found, s, t, times, k);
      assert slavelist[k] == DcRun(found, times, |s|).list[k];
    }
  }
}
