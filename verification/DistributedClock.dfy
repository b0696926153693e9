/** Propagation delay measurement with distributed clocks (ec_dc.c). */
module DistributedClock {
  import opened EcTypes
  import opened NetworkTree
  import opened SlaveList

  const PORTM0: bv8 := 0x01
  const PORTM1: bv8 := 0x02
  const PORTM2: bv8 := 0x04
  const PORTM3: bv8 := 0x08

  /** The receive time registers of ports 0, 1, 2 and 3 of one slave. */
  datatype Times = Times(A: int, B: int, C: int, D: int)

  /** Latched port time of a slave. */
  function PortTime(s: Slave, port: nat): int {
    match port
    case 0 => s.DCrtA
    case 1 => s.DCrtB
    case 2 => s.DCrtC
    case 3 => s.DCrtD
    case _ => 0
  }

  /** The active port that the frame used before `port`; the port order is 0 - 3 - 1 - 2. */
  function PrevPort(s: Slave, port: nat): nat {
    var aport := s.activeports;
    match port
    case 0 => if aport & PORTM2 != 0 then 2 else if aport & PORTM1 != 0 then 1
      else if aport & PORTM3 != 0 then 3 else port
    case 1 => if aport & PORTM3 != 0 then 3 else if aport & PORTM0 != 0 then 0
      else if aport & PORTM2 != 0 then 2 else port
    case 2 => if aport & PORTM1 != 0 then 1 else if aport & PORTM3 != 0 then 3
      else if aport & PORTM0 != 0 then 0 else port
    case 3 => if aport & PORTM0 != 0 then 0 else if aport & PORTM2 != 0 then 2
      else if aport & PORTM1 != 0 then 1 else port
    case _ => port
  }

  /** The first port that is not consumed yet. */
  function OpenPort(b: bv8): nat {
    if b & PORTM3 != 0 then 3 else if b & PORTM1 != 0 then 1 else if b & PORTM2 != 0 then 2 else 0
  }

  /** The ports that are left once `OpenPort(b)` is consumed. */
  function Consume(b: bv8): bv8 {
    if b & PORTM3 != 0 then b & !PORTM3
    else if b & PORTM1 != 0 then b & !PORTM1
    else if b & PORTM2 != 0 then b & !PORTM2
    else b & !PORTM0
  }

  /** Consumes and returns the next open port of `parent`. */
  method ParentPort(slavelist: array<Slave>, parent: nat) returns (parentport: nat)
    requires parent < slavelist.Length
    modifies slavelist
    ensures parentport == OpenPort(old(slavelist[parent]).consumedports)
    ensures slavelist[..] == old(slavelist[..])[parent :=
                               old(slavelist[parent]).(consumedports := Consume(old(slavelist[parent]).consumedports))]
  {
    parentport := 0;
    var b := slavelist[parent].consumedports;
    if b & PORTM3 != 0 {
      parentport := 3;
      b := b & !PORTM3;
    } else if b & PORTM1 != 0 {
      parentport := 1;
      b := b & !PORTM1;
    } else if b & PORTM2 != 0 {
      parentport := 2;
      b := b & !PORTM2;
    } else if b & PORTM0 != 0 {
      parentport := 0;
      b := b & !PORTM0;
    }
    slavelist[parent] := slavelist[parent].(consumedports := b);
  }

  predicate Active(s: Slave, port: nat) {
    match port
    case 0 => s.activeports & PORTM0 != 0
    case 1 => s.activeports & PORTM1 != 0
    case 2 => s.activeports & PORTM2 != 0
    case 3 => s.activeports & PORTM3 != 0
    case _ => false
  }

  function Earlier(s: Slave, entry: nat, port: nat): nat {
    if Active(s, port) && PortTime(s, port) < PortTime(s, entry) then port else entry
  }

  /** Position of a port in the order in which the frame uses it. */
  function PortOrder(port: nat): nat {
    match port
    case 0 => 0
    case 3 => 1
    case 1 => 2
    case _ => 3
  }

  /** The active port with the lowest time; the first one in port order on a tie. */
  function EntryPort(s: Slave): (p: nat)
    ensures p < 4
  {
    var first := if Active(s, 0) then 0 else if Active(s, 3) then 3 else if Active(s, 1) then 1 else 2;
    Earlier(s, Earlier(s, Earlier(s, first, 3), 1), 2)
  }

  /** Every slave that answers has at least one active port. */
  method FindEntryPort(s: Slave) returns (entryport: nat)
    requires s.activeports & 0x0f != 0
    ensures entryport == EntryPort(s) < 4
    ensures Active(s, entryport)
    ensures forall p: nat :: Active(s, p) ==> PortTime(s, entryport) <= PortTime(s, p)
    ensures forall p: nat :: Active(s, p) && PortTime(s, p) == PortTime(s, entryport) ==>
      PortOrder(entryport) <= PortOrder(p)
  {
    // active ports and their time stamps
    var plist, tlist := new nat[4], new int[4];
    var nlist := 0;
    if s.activeports & PORTM0 != 0 {
      plist[nlist], tlist[nlist] := 0, s.DCrtA;
      nlist := nlist + 1;
    }
    if s.activeports & PORTM3 != 0 {
      plist[nlist], tlist[nlist] := 3, s.DCrtD;
      nlist := nlist + 1;
    }
    if s.activeports & PORTM1 != 0 {
      plist[nlist], tlist[nlist] := 1, s.DCrtB;
      nlist := nlist + 1;
    }
    if s.activeports & PORTM2 != 0 {
      plist[nlist], tlist[nlist] := 2, s.DCrtC;
      nlist := nlist + 1;
    }
    var entry := 0;
    if nlist > 1 && tlist[1] < tlist[entry] {
      entry := 1;
    }
    if nlist > 2 && tlist[2] < tlist[entry] {
      entry := 2;
    }
    if nlist > 3 && tlist[3] < tlist[entry] {
      entry := 3;
    }
    entryport := plist[entry];
  }

  function PortMask(port: nat): bv8
    requires port < 4
  {
    1 << port
  }

  /** How many steps back from `port` the port `q` is, in the order in which a frame visits them; a whole
      round from a port to itself. */
  function StepsBack(port: nat, q: nat): nat
    requires port < 4 && q < 4
  {
    if PortOrder(q) < PortOrder(port) then PortOrder(port) - PortOrder(q) else 4 + PortOrder(port) - PortOrder(q)
  }

  /** The previous port is the active one that the frame visited last before the port. */
  lemma {:induction false} PrevPortIsLast(s: Slave, port: nat)
    requires Active(s, port) && port < 4
    ensures var prev := PrevPort(s, port);
            && prev < 4 && Active(s, prev)
            && forall q :: 0 <= q < 4 && Active(s, q) ==> StepsBack(port, prev) <= StepsBack(port, q)
  {
    forall q | 0 <= q < 4 && Active(s, q) ensures StepsBack(port, PrevPort(s, port)) <= StepsBack(port, q) {
      assert q == 0 || q == 1 || q == 2 || q == 3;
    }
  }

  /** Parents have smaller numbers than their children. */
  ghost predicate ParentsFirst(list: seq<Slave>) {
    forall k :: 1 <= k < |list| ==> list[k].parent < k
  }

  /** `b` has the links, parents and clocks of `a`. */
  ghost predicate SameWiring(a: seq<Slave>, b: seq<Slave>) {
    && |a| == |b|
    && forall k :: 1 <= k < |a| ==>
      && b[k].topology == a[k].topology && b[k].activeports == a[k].activeports
      && b[k].parent == a[k].parent && b[k].hasdc == a[k].hasdc
  }

  /** The nearest ancestor with a distributed clock, 0 if there is none, and the slave
      below it on the way to `i`. */
  function DcParent(list: seq<Slave>, i: nat): (r: (nat, nat))
    requires 1 <= i < |list| && ParentsFirst(list)
    ensures r.1 < r.0 <= i && list[r.0].parent == r.1
    ensures r.1 > 0 ==> list[r.1].hasdc
    decreases i
  {
    var parent := list[i].parent;
    if parent == 0 || list[parent].hasdc then (i, parent) else DcParent(list, parent)
  }

  /** Delay of slave `me` against the master, from the times latched at it and at its parent
      `up`; `later` tells that it is not the first child of its parent. */
  function Delay(up: Slave, me: Slave, later: bool): int {
    var prev := PrevPort(up, me.parentport);
    var dt3 := Int32(PortTime(up, me.parentport) - PortTime(up, prev));
    var dt1 := if me.topology > 1
               then Int32(PortTime(me, PrevPort(me, me.entryport)) - PortTime(me, me.entryport)) else 0;
    var dt1' := if dt1 > dt3 then -dt1 else dt1;
    var dt2 := if later then Int32(PortTime(up, prev) - PortTime(up, up.entryport)) else 0;
    var dt2' := if dt2 < 0 then -dt2 else dt2;
    Int32(Half(dt3 - dt1') + dt2' + up.pdelay)
  }

  /** Also when the times are not those of symmetric cables, and the difference at the slave is the larger
      one: a slave is never nearer to the master than its parent, nor than what the frame needs for the
      children before it. */
  lemma {:induction false} DelayGrows(up: Slave, me: Slave, later: bool)
    requires var prev := PrevPort(up, me.parentport);
             && 0 <= PortTime(up, me.parentport) - PortTime(up, prev) < 0x1000_0000
             && 0 <= PortTime(me, PrevPort(me, me.entryport)) - PortTime(me, me.entryport) < 0x1000_0000
             && -0x1000_0000 < PortTime(up, prev) - PortTime(up, up.entryport) < 0x1000_0000
    requires 0 <= up.pdelay < 0x1000_0000
    ensures var prev := PrevPort(up, me.parentport);
            var above := PortTime(up, me.parentport) - PortTime(up, prev);
            var below := if me.topology > 1 then PortTime(me, PrevPort(me, me.entryport)) - PortTime(me, me.entryport)
                         else 0;
            var before := if !later then 0
                          else if PortTime(up, prev) >= PortTime(up, up.entryport) then
                            PortTime(up, prev) - PortTime(up, up.entryport)
                          else PortTime(up, up.entryport) - PortTime(up, prev);
            var more := Delay(up, me, later) - up.pdelay - before;
            && more >= 0
            && 0 <= (if below <= above then above - below else above + below) - 2 * more <= 1
  {
    hide PortTime;
    hide PrevPort;
  }

  method ComputeDelay(up: Slave, me: Slave, later: bool) returns (pdelay: int)
    ensures pdelay == Delay(up, me, later)
  {
    var dt1, dt2 := 0, 0;
    var prev := PrevPort(up, me.parentport);
    var dt3 := Int32(PortTime(up, me.parentport) - PortTime(up, prev));
    // children of this slave: their delays need to be subtracted
    if me.topology > 1 {
      dt1 := Int32(PortTime(me, PrevPort(me, me.entryport)) - PortTime(me, me.entryport));
    }
    if dt1 > dt3 {
      dt1 := -dt1;
    }
    // previous children of the parent: their delays need to be added
    if later {
      dt2 := Int32(PortTime(up, prev) - PortTime(up, up.entryport));
    }
    if dt2 < 0 {
      dt2 := -dt2;
    }
    pdelay := Int32(Half(dt3 - dt1) + dt2 + up.pdelay);
  }

  datatype DcState = DcState(list: seq<Slave>, parenthold: nat, prevDCslave: nat)

  /** Slave `i` joins the list of slaves with a distributed clock. */
  function Join(list: seq<Slave>, i: nat, prev: nat): (r: seq<Slave>)
    requires 1 <= i < |list| && prev < i
    ensures SameWiring(list, r)
  {
    if !list[0].hasdc then
      list[0 := list[0].(hasdc := true, DCnext := i)][i := list[i].(DCprevious := 0)]
    else
      list[prev := list[prev].(DCnext := i)][i := list[i].(DCprevious := prev)]
  }

  function Stamp(s: Slave, t: Times): (r: Slave) {
    s.(DCrtA := Int32(t.A), DCrtB := Int32(t.B), DCrtC := Int32(t.C), DCrtD := Int32(t.D))
  }

  function Enter(s: Slave): (r: Slave) {
    s.(entryport := EntryPort(s), consumedports := s.consumedports & !PortMask(EntryPort(s)))
  }

  /** Slave `i` takes a port of its DC parent and gets its delay. */
  function Measure(list: seq<Slave>, i: nat, child: nat, parent: nat): (r: seq<Slave>)
    requires 1 <= i < |list| && parent < child <= i
    ensures SameWiring(list, r)
  {
    var open := OpenPort(list[parent].consumedports);
    var l1 := list[parent := list[parent].(consumedports := Consume(list[parent].consumedports))];
    var port := if l1[parent].topology == 1 then l1[parent].entryport else open;
    var l2 := l1[i := l1[i].(parentport := port)];
    l2[i := l2[i].(pdelay := Delay(l2[parent], l2[i], child - parent > 1))]
  }

  /** The entry port is recorded, and taken from the ports that are open; nothing else changes. */
  lemma {:induction false} EnterTakesPort(s: Slave)
    ensures var r, entry := Enter(s), EntryPort(s);
            && r == s.(entryport := entry, consumedports := r.consumedports)
            && r.consumedports & 0x01 == (if entry == 0 then 0 else s.consumedports & 0x01)
            && r.consumedports & 0x02 == (if entry == 1 then 0 else s.consumedports & 0x02)
            && r.consumedports & 0x04 == (if entry == 2 then 0 else s.consumedports & 0x04)
            && r.consumedports & 0x08 == (if entry == 3 then 0 else s.consumedports & 0x08)
            && r.consumedports & 0xf0 == s.consumedports & 0xf0
  {
    hide *;
    EnterIs(s);
    MaskBits(s.consumedports, EntryPort(s));
  }

  lemma {:induction false} EnterIs(s: Slave)
    ensures Enter(s) == s.(entryport := EntryPort(s), consumedports := s.consumedports & !PortMask(EntryPort(s)))
  {
    hide EntryPort;
    hide PortMask;
  }

  lemma {:induction false} MaskBits(b: bv8, port: nat)
    requires port < 4
    ensures var c := b & !PortMask(port);
            && c & 0x01 == (if port == 0 then 0 else b & 0x01) && c & 0x02 == (if port == 1 then 0 else b & 0x02)
            && c & 0x04 == (if port == 2 then 0 else b & 0x04) && c & 0x08 == (if port == 3 then 0 else b & 0x08)
            && c & 0xf0 == b & 0xf0
  {
  }

  /** A slave is measured at the first open port of its DC parent, or where the frame entered the parent if
      that has a single link; the port is taken, and nothing else changes. */
  lemma {:induction false} MeasureTakesPort(list: seq<Slave>, i: nat, child: nat, parent: nat)
    requires 1 <= i < |list| && parent < child <= i
    ensures var r, up := Measure(list, i, child, parent), list[parent];
            && r[parent] == up.(consumedports := FirstTaken(up.consumedports))
            && r[i] == list[i].(parentport := r[i].parentport, pdelay := r[i].pdelay)
            && r[i].parentport == (if up.topology == 1 then up.entryport
                                   else if up.consumedports & 0x08 != 0 then 3
                                   else if up.consumedports & 0x02 != 0 then 1
                                   else if up.consumedports & 0x04 != 0 then 2
                                   else 0)
            && r[i].pdelay == Delay(r[parent], r[i], child - parent > 1)
            && forall k :: 0 <= k < |list| && k != i && k != parent ==> r[k] == list[k]
  {
    hide *;
    MeasureIs(list, i, child, parent);
    ConsumeIs(list[parent].consumedports);
    OpenIs(list[parent].consumedports);
  }

  lemma {:induction false} OpenIs(open: bv8)
    ensures OpenPort(open) == if open & 0x08 != 0 then 3 else if open & 0x02 != 0 then 1
                              else if open & 0x04 != 0 then 2 else 0
  {
  }

  lemma {:induction false} MeasureIs(list: seq<Slave>, i: nat, child: nat, parent: nat)
    requires 1 <= i < |list| && parent < child <= i
    ensures var r, up := Measure(list, i, child, parent), list[parent];
            var port := if up.topology == 1 then up.entryport else OpenPort(up.consumedports);
            && |r| == |list|
            && r == list[parent := up.(consumedports := Consume(up.consumedports))]
                        [i := list[i].(parentport := port, pdelay := r[i].pdelay)]
            && r[i].pdelay == Delay(r[parent], r[i], child - parent > 1)
  {
    hide Consume;
    hide OpenPort;
    hide SameWiring;
    hide Delay;
    var r := Measure(list, i, child, parent);
    DelayReads(r[parent], r[i], list[i].pdelay, child - parent > 1);
  }

  /** The delay does not depend on the one that the slave had before. */
  lemma {:induction false} DelayReads(up: Slave, me: Slave, pdelay: int, later: bool)
    ensures Delay(up, me.(pdelay := pdelay), later) == Delay(up, me, later)
  {
    PrevReads(me, pdelay);
    hide PrevPort;
  }

  lemma {:induction false} PrevReads(me: Slave, pdelay: int)
    ensures PrevPort(me.(pdelay := pdelay), me.entryport) == PrevPort(me, me.entryport)
  {
  }

  /** A slave with a distributed clock: latch its times, then measure it against its DC parent. */
  function ClockSlave(list: seq<Slave>, i: nat, prev: nat, t: Times): (r: seq<Slave>)
    requires 1 <= i < |list| && prev < i && ParentsFirst(list)
    ensures SameWiring(list, r)
  {
    var l1 := Join(list, i, prev);
    var l2 := l1[i := Enter(Stamp(l1[i], t))];
    var (child, parent) := DcParent(l2, i);
    if parent > 0 then Measure(l2, i, child, parent) else l2
  }

  /** A slave without one: at the end of its branch it consumes the port the branch hangs on. */
  function PlainSlave(list: seq<Slave>, i: nat, parenthold: nat): (r: (seq<Slave>, nat))
    requires 1 <= i < |list| && parenthold < i && ParentsFirst(list)
    ensures SameWiring(list, r.0) && r.1 < i
  {
    var l1 := list[i := Stamp(list[i], Times(0, 0, 0, 0))];
    var parent := l1[i].parent;
    var hold := if parent > 0 && l1[parent].topology > 2 then parent else parenthold;
    if hold > 0 && l1[i].topology == 1 then
      (l1[hold := l1[hold].(consumedports := Consume(l1[hold].consumedports))], 0)
    else
      (l1, hold)
  }

  /** One pass of the loop of `ConfigDc`, on values. */
  function DcStep(st: DcState, i: nat, t: Times): (r: DcState)
    requires 1 <= i < |st.list| && ParentsFirst(st.list)
    requires st.prevDCslave < i && st.parenthold < i
    ensures SameWiring(st.list, r.list)
    ensures r.prevDCslave <= i && r.parenthold <= i
  {
    var l := st.list[i := st.list[i].(consumedports := st.list[i].activeports)];
    if l[i].hasdc then
      DcState(ClockSlave(l, i, st.prevDCslave, t), 0, i)
    else
      var r := PlainSlave(l, i, st.parenthold);
      DcState(r.0, r.1, st.prevDCslave)
  }

  /** The state once the slaves before `n` are handled. */
  function DcRun(list: seq<Slave>, times: seq<Times>, n: nat): (r: DcState)
    requires 1 <= n <= |list| == |times| && ParentsFirst(list)
    ensures SameWiring(list, r.list)
    ensures r.prevDCslave < n && r.parenthold < n
  {
    if n == 1 then DcState(list[0 := list[0].(hasdc := false)], 0, 0)
    else DcStep(DcRun(list, times, n - 1), n - 1, times[n - 1])
  }

  /** Every slave with a distributed clock has an active port. */
  ghost predicate ClocksLinked(list: seq<Slave>) {
    forall k :: 1 <= k < |list| && list[k].hasdc ==> list[k].activeports & 0x0f != 0
  }

  // The reference clock

  /** What the record of a group says about its reference clock. */
  datatype GroupClock = GroupClock(hasdc: bool, DCnext: nat)

  /** The first slave before number `n` that has a clock, 0 if there is none. */
  function FirstClock(list: seq<Slave>, n: nat): (k: nat)
    requires 1 <= n <= |list|
    ensures k < n && (k > 0 ==> list[k].hasdc)
    ensures forall j :: 1 <= j < n && list[j].hasdc ==> 0 < k <= j
  {
    if n == 1 then 0
    else
      var k := FirstClock(list, n - 1);
      if k == 0 && list[n - 1].hasdc then n - 1 else k
  }

  /** Slave `i` is the reference clock of its group, if it is the first one. */
  function Referenced(groups: seq<GroupClock>, group: nat, i: nat): seq<GroupClock>
    requires group < |groups|
  {
    groups[group := GroupClock(true, i)]
  }

  /** The group records once the slaves before number `n` are handled: only the first clock of all
      becomes a reference clock, in the group it belongs to. */
  function GroupsAfter(groups: seq<GroupClock>, list: seq<Slave>, group: seq<nat>, n: nat): seq<GroupClock>
    requires 1 <= n <= |list| == |group| && |groups| > 0 && forall k :: 0 <= k < |group| ==> group[k] < |groups|
  {
    var start := groups[0 := groups[0].(hasdc := false)];
    var k := FirstClock(list, n);
    if k == 0 then start else Referenced(start, group[k], k)
  }

  /** Slave `k` has a clock, and no slave before it. */
  ghost predicate IsFirstClock(list: seq<Slave>, k: nat)
    requires 1 <= k < |list|
  {
    list[k].hasdc && forall j :: 1 <= j < k ==> !list[j].hasdc
  }

  /** Group `g` has the first clock of all. */
  ghost predicate HasFirstClock(list: seq<Slave>, group: seq<nat>, g: nat)
    requires |list| == |group|
  {
    exists k :: 1 <= k < |list| && IsFirstClock(list, k) && group[k] == g
  }

  /** The group that has the first clock has it as its reference clock, and no other group has a new one;
      group 0 is said to have none, unless it is the one. */
  ghost predicate ReferencesSet(before: seq<GroupClock>, after: seq<GroupClock>, list: seq<Slave>, group: seq<nat>)
    requires |list| == |group|
  {
    && |after| == |before|
    && forall g :: 0 <= g < |after| ==>
      if HasFirstClock(list, group, g) then
        after[g].hasdc && 1 <= after[g].DCnext < |list| && IsFirstClock(list, after[g].DCnext)
      else after[g] == if g == 0 then before[0].(hasdc := false) else before[g]
  }

  lemma {:induction false} GroupsAre(groups: seq<GroupClock>, list: seq<Slave>, group: seq<nat>)
    requires 1 <= |list| == |group| && |groups| > 0 && forall k :: 0 <= k < |group| ==> group[k] < |groups|
    ensures ReferencesSet(groups, GroupsAfter(groups, list, group, |list|), list, group)
  {
    var k := FirstClock(list, |list|);
    hide FirstClock;
    if k > 0 {
      assert IsFirstClock(list, k);
      assert forall j :: 1 <= j < |list| && IsFirstClock(list, j) ==> j == k;
    }
  }

  /** The master has a clock as soon as one slave has one. */
  lemma {:induction false} MasterHasClock(list: seq<Slave>, times: seq<Times>, n: nat)
    requires 1 <= n <= |list| == |times| && ParentsFirst(list)
    ensures DcRun(list, times, n).list[0].hasdc <==> FirstClock(list, n) > 0
  {
    if n > 1 {
      MasterHasClock(list, times, n - 1);
      StepKeepsMaster(DcRun(list, times, n - 1), n - 1, times[n - 1]);
      hide DcStep;
    }
  }

  lemma {:induction false} StepKeepsMaster(st: DcState, i: nat, t: Times)
    requires 1 <= i < |st.list| && ParentsFirst(st.list)
    requires st.prevDCslave < i && st.parenthold < i
    ensures DcStep(st, i, t).list[0].hasdc == (st.list[0].hasdc || st.list[i].hasdc)
  {
  }

  // The list of clocks

  /** Between slaves `lo` and `hi` there is none with a clock. */
  ghost predicate NoClockBetween(list: seq<Slave>, lo: nat, hi: nat)
    requires hi <= |list|
  {
    forall m :: lo < m < hi ==> !list[m].hasdc
  }

  /** From the master on, the slaves with a clock before number `n` are linked in their order. */
  ghost predicate ClocksInOrder(list: seq<Slave>, n: nat) {
    && 1 <= n <= |list|
    && (forall k :: 1 <= k < n && list[k].hasdc && NoClockBetween(list, 0, k) ==>
          list[0].DCnext == k && list[k].DCprevious == 0)
    && (forall j, k :: 1 <= j < k < n && list[j].hasdc && list[k].hasdc && NoClockBetween(list, j, k) ==>
          list[j].DCnext == k && list[k].DCprevious == j)
  }

  /** `prev` is the last slave with a clock before number `n`, 0 if there is none. */
  ghost predicate LastClock(list: seq<Slave>, n: nat, prev: nat) {
    prev < n <= |list| && (prev > 0 ==> list[prev].hasdc) && NoClockBetween(list, prev, n)
  }

  /** What joining slave `i` behind `prev` changes. */
  ghost predicate Joined(l: seq<Slave>, r: seq<Slave>, i: nat, prev: nat) {
    && i < |l| == |r|
    && (forall k :: 1 <= k < |l| ==> r[k].hasdc == l[k].hasdc)
    && (forall k :: 0 <= k < |l| ==> r[k].DCnext == if l[i].hasdc && k == prev then i else l[k].DCnext)
    && (forall k :: 0 <= k < |l| ==> r[k].DCprevious == if l[i].hasdc && k == i then prev else l[k].DCprevious)
  }

  lemma {:induction false} EnterKeeps(s: Slave, t: Times)
    ensures var r := Enter(Stamp(s, t));
            && r.parent == s.parent && r.hasdc == s.hasdc && r.topology == s.topology
            && r.activeports == s.activeports && r.DCnext == s.DCnext && r.DCprevious == s.DCprevious
  {
    hide EntryPort;
  }

  /** A step changes no links but those of the slave that joins. */
  lemma {:induction false} StepLinks(st: DcState, i: nat, t: Times)
    requires 1 <= i < |st.list| && ParentsFirst(st.list)
    requires st.prevDCslave < i && st.parenthold < i
    requires st.list[0].hasdc <==> st.prevDCslave > 0
    ensures var r := DcStep(st, i, t);
            Joined(st.list, r.list, i, st.prevDCslave)
              && r.prevDCslave == if st.list[i].hasdc then i else st.prevDCslave
  {
    hide Measure;
    hide PlainSlave;
    hide DcParent;
    hide Enter;
    hide Stamp;
    var prev, l := st.prevDCslave, st.list[i := st.list[i].(consumedports := st.list[i].activeports)];
    if l[i].hasdc {
      var l1 := Join(l, i, prev);
      EnterKeeps(l1[i], t);
      var l2 := l1[i := Enter(Stamp(l1[i], t))];
      hide Enter;
      var (child, parent) := DcParent(l2, i);
      if parent > 0 {
        MeasureKeepsLinks(l2, i, child, parent);
      }
    } else {
      PlainKeepsLinks(l, i, st.parenthold);
    }
  }

  ghost predicate SameLinks(a: seq<Slave>, b: seq<Slave>) {
    && |a| == |b|
    && forall k :: 0 <= k < |a| ==>
       b[k].hasdc == a[k].hasdc && b[k].DCnext == a[k].DCnext && b[k].DCprevious == a[k].DCprevious
  }

  lemma {:induction false} MeasureKeepsLinks(list: seq<Slave>, i: nat, child: nat, parent: nat)
    requires 1 <= i < |list| && parent < child <= i
    ensures SameLinks(list, Measure(list, i, child, parent))
  {
    hide Delay;
    hide Consume;
    hide OpenPort;
  }

  lemma {:induction false} PlainKeepsLinks(list: seq<Slave>, i: nat, parenthold: nat)
    requires 1 <= i < |list| && parenthold < i && ParentsFirst(list)
    ensures SameLinks(list, PlainSlave(list, i, parenthold).0)
  {
    hide Consume;
  }

  lemma {:induction false} ClocksAreLinked(list: seq<Slave>, times: seq<Times>, n: nat)
    requires 1 <= n <= |list| == |times| && ParentsFirst(list)
    ensures var st := DcRun(list, times, n);
            && |st.list| == |list| && ClocksInOrder(st.list, n) && LastClock(st.list, n, st.prevDCslave)
            && (st.list[0].hasdc <==> st.prevDCslave > 0)
  {
    hide DcStep;
    hide ClocksInOrder;
    hide LastClock;
    hide Joined;
    if n == 1 {
      OneInOrder(DcRun(list, times, 1).list);
    } else {
      ClocksAreLinked(list, times, n - 1);
      var st := DcRun(list, times, n - 1);
      StepLinks(st, n - 1, times[n - 1]);
      StepKeepsMaster(st, n - 1, times[n - 1]);
      LinkedStep(st.list, DcStep(st, n - 1, times[n - 1]).list, n - 1, st.prevDCslave);
    }
  }

  lemma {:induction false} OneInOrder(list: seq<Slave>)
    requires |list| >= 1
    ensures ClocksInOrder(list, 1) && LastClock(list, 1, 0)
  {
  }

  lemma {:induction false} LinkedStep(l: seq<Slave>, r: seq<Slave>, i: nat, prev: nat)
    requires 1 <= i < |l| && ClocksInOrder(l, i) && LastClock(l, i, prev) && Joined(l, r, i, prev)
    ensures ClocksInOrder(r, i + 1) && LastClock(r, i + 1, if l[i].hasdc then i else prev)
  {
    forall j, k | 0 <= j < k <= |l| ensures NoClockBetween(r, j, k) <==> NoClockBetween(l, j, k) {
      SameClocks(l, r, j, k);
    }
    forall j | 0 <= j < i && (j > 0 ==> l[j].hasdc) && NoClockBetween(l, j, i) ensures j == prev {
    }
    forall j, k | 0 <= j < k < i && l[k].hasdc && NoClockBetween(l, j, k) ensures prev >= k {
    }
    assert NoClockBetween(l, prev, i);
    assert NoClockBetween(l, if l[i].hasdc then i else prev, i + 1);
    hide NoClockBetween;
  }

  lemma {:induction false} SameClocks(l: seq<Slave>, r: seq<Slave>, j: nat, k: nat)
    requires j < k <= |l| == |r| && forall k :: 1 <= k < |l| ==> r[k].hasdc == l[k].hasdc
    ensures NoClockBetween(r, j, k) <==> NoClockBetween(l, j, k)
  {
  }

  /** If all slaves have clocks, each is linked to the next. */
  lemma {:induction false} AllLinked(list: seq<Slave>)
    requires |list| >= 2 && ClocksInOrder(list, |list|) && forall k :: 1 <= k < |list| ==> list[k].hasdc
    ensures forall k :: 0 <= k < |list| - 1 ==> list[k].DCnext == k + 1
    ensures forall k :: 1 <= k < |list| ==> list[k].DCprevious == k - 1
  {
    forall k | 0 <= k < |list| - 1 ensures list[k].DCnext == k + 1 {
      LinkedPair(list, k);
    }
    forall k | 1 <= k < |list| ensures list[k].DCprevious == k - 1 {
      LinkedPair(list, k - 1);
    }
  }

  lemma {:induction false} LinkedPair(list: seq<Slave>, k: nat)
    requires ClocksInOrder(list, |list|) && k + 1 < |list| && (k > 0 ==> list[k].hasdc) && list[k + 1].hasdc
    ensures list[k].DCnext == k + 1 && list[k + 1].DCprevious == k
  {
    assert NoClockBetween(list, k, k + 1);
  }

  // A branch without clocks

  /** The slaves `lo` to `hi` are a line without clocks behind a port of slave `root`. */
  ghost predicate PlainBranch(list: seq<Slave>, root: nat, lo: nat, hi: nat) {
    && 1 <= root < lo <= hi < |list| && list[lo].parent == root
    && (forall k :: lo < k <= hi ==> list[k].parent == k - 1)
    && (forall k :: lo <= k <= hi ==> !list[k].hasdc && list[k].topology == if k < hi then 2 else 1)
  }

  /** What the slaves before number `n` of such a branch leave in the list. */
  ghost predicate BranchPassed(list: seq<Slave>, r: seq<Slave>, lo: nat, n: nat) {
    && |r| == |list| && n <= |list|
    && (forall k :: 0 <= k < |list| && (k < lo || n <= k) ==> r[k] == list[k])
    && forall k :: lo <= k < n ==>
         r[k] == list[k].(consumedports := list[k].activeports, DCrtA := 0, DCrtB := 0, DCrtC := 0, DCrtD := 0)
  }

  function RunFrom(st: DcState, times: seq<Times>, i: nat, n: nat): (r: DcState)
    requires 1 <= i <= n <= |st.list| == |times| && ParentsFirst(st.list)
    requires st.prevDCslave < i && st.parenthold < i
    ensures SameWiring(st.list, r.list) && r.prevDCslave < n && r.parenthold < n
  {
    if n == i then st else DcStep(RunFrom(st, times, i, n - 1), n - 1, times[n - 1])
  }

  /** Before its last slave is handled, a branch without clocks only gets times of zero. */
  lemma {:induction false} BranchIsHeld(st: DcState, times: seq<Times>, root: nat, lo: nat, hi: nat, n: nat)
    requires |st.list| == |times| && ParentsFirst(st.list) && st.prevDCslave < lo && st.parenthold < lo
    requires PlainBranch(st.list, root, lo, hi) && lo < n <= hi && st.list[root].topology > 2
    ensures var r := RunFrom(st, times, lo, n);
            BranchPassed(st.list, r.list, lo, n) && r.parenthold == root && r.prevDCslave == st.prevDCslave
    decreases n
  {
    if n > lo + 1 {
      BranchIsHeld(st, times, root, lo, hi, n - 1);
    }
    assert RunFrom(st, times, lo, lo) == st;
    var q := RunFrom(st, times, lo, n - 1);
    assert q.list[n - 1] == st.list[n - 1];
    assert RunFrom(st, times, lo, n) == DcStep(q, n - 1, times[n - 1]);
    hide RunFrom;
  }

  /** The ports that are left when the first open one is taken, in the order 3, 1, 2, 0. */
  function FirstTaken(open: bv8): bv8 {
    if open & 0x08 != 0 then open & 0xf7
    else if open & 0x02 != 0 then open & 0xfd
    else if open & 0x04 != 0 then open & 0xfb
    else open & 0xfe
  }

  /** With its last slave the branch takes one port of the slave it hangs on: the first that is
      open in the order 3, 1, 2, 0. So the next branch will find its own port. */
  lemma {:induction false} BranchTakesPort(st: DcState, times: seq<Times>, root: nat, lo: nat, hi: nat)
    requires |st.list| == |times| && ParentsFirst(st.list) && st.prevDCslave < lo && st.parenthold < lo
    requires PlainBranch(st.list, root, lo, hi) && st.list[root].topology > 2
    ensures var r := RunFrom(st, times, lo, hi + 1);
            var open := st.list[root].consumedports;
            && r.parenthold == 0 && r.prevDCslave == st.prevDCslave
            && BranchPassed(st.list[root := r.list[root]], r.list, lo, hi + 1)
            && r.list[root] == st.list[root].(consumedports := FirstTaken(open))
  {
    hide *;
    BranchBounds(st.list, root, lo, hi);
    BeforeLast(st, times, root, lo, hi);
    var q := RunFrom(st, times, lo, hi);
    AtLast(st, q, root, lo, hi);
    BranchEnds(q, hi, root, times[hi]);
    BranchClosed(st.list, q.list, lo, hi, root, FirstTaken(st.list[root].consumedports));
  }

  lemma {:induction false} BranchBounds(list: seq<Slave>, root: nat, lo: nat, hi: nat)
    requires PlainBranch(list, root, lo, hi)
    ensures 1 <= root < lo <= hi < |list|
  {
  }

  lemma {:induction false} AtLast(st: DcState, q: DcState, root: nat, lo: nat, hi: nat)
    requires PlainBranch(st.list, root, lo, hi) && BranchPassed(st.list, q.list, lo, hi)
    requires st.list[root].topology > 2 && (lo < hi ==> q.parenthold == root)
    ensures q.list[root] == st.list[root] && root < hi < |q.list|
    ensures !q.list[hi].hasdc && q.list[hi].topology == 1 && q.list[hi].parent < hi
    ensures if q.list[hi].parent == root then q.list[root].topology > 2
            else q.parenthold == root && q.list[q.list[hi].parent].topology == 2
  {
  }

  lemma {:induction false} BranchClosed(
    list: seq<Slave>, r: seq<Slave>, lo: nat, hi: nat, root: nat, ports: bv8)
    requires root < lo <= hi < |list| && BranchPassed(list, r, lo, hi)
    ensures BranchPassed(list[root := list[root].(consumedports := ports)],
                         r[hi := r[hi].(consumedports := r[hi].activeports, DCrtA := 0, DCrtB := 0, DCrtC := 0,
                           DCrtD := 0)]
                          [root := r[root].(consumedports := ports)], lo, hi + 1)
  {
  }

  lemma {:induction false} BeforeLast(st: DcState, times: seq<Times>, root: nat, lo: nat, hi: nat)
    requires |st.list| == |times| && ParentsFirst(st.list) && st.prevDCslave < lo && st.parenthold < lo
    requires PlainBranch(st.list, root, lo, hi) && st.list[root].topology > 2
    ensures var q := RunFrom(st, times, lo, hi);
            && BranchPassed(st.list, q.list, lo, hi) && q.prevDCslave == st.prevDCslave
            && (lo < hi ==> q.parenthold == root) && ParentsFirst(q.list) && q.parenthold < hi
            && RunFrom(st, times, lo, hi + 1) == DcStep(q, hi, times[hi])
  {
    if lo < hi {
      BranchIsHeld(st, times, root, lo, hi, hi);
    }
    hide DcStep;
  }

  lemma {:induction false} ConsumeIs(open: bv8)
    ensures Consume(open) == FirstTaken(open)
  {
  }

  /** The last slave of a branch without clocks takes the port. */
  lemma {:induction false} BranchEnds(q: DcState, hi: nat, root: nat, t: Times)
    requires 1 <= root < hi < |q.list| && ParentsFirst(q.list) && q.prevDCslave < hi && q.parenthold < hi
    requires !q.list[hi].hasdc && q.list[hi].topology == 1
    requires if q.list[hi].parent == root then q.list[root].topology > 2
             else q.parenthold == root && q.list[q.list[hi].parent].topology == 2
    ensures var open := q.list[root].consumedports;
            DcStep(q, hi, t) ==
            DcState(q.list[hi := q.list[hi].(consumedports := q.list[hi].activeports,
                                             DCrtA := 0, DCrtB := 0, DCrtC := 0, DCrtD := 0)]
                          [root := q.list[root].(consumedports := FirstTaken(open))],
                    0, q.prevDCslave)
  {
    ConsumeIs(q.list[root].consumedports);
    hide Consume;
    hide FirstTaken;
    hide SameWiring;
  }

  /** Locates the slaves with a distributed clock and measures propagation delays.
      `times[k]` are the receive times that slave k latched, and `group[k]` is its group; index 0
      is the master. */
  method ConfigDc(slavelist: array<Slave>, grouplist: array<GroupClock>, group: seq<nat>, times: seq<Times>)
      returns (hasdc: bool)
    requires 1 <= slavelist.Length == |times| == |group| && grouplist.Length > 0
    requires ParentsFirst(slavelist[..]) && ClocksLinked(slavelist[..])
    requires forall k :: 0 <= k < |group| ==> group[k] < grouplist.Length
    modifies slavelist, grouplist
    ensures slavelist[..] == DcRun(old(slavelist[..]), times, |times|).list
    ensures grouplist[..] == GroupsAfter(old(grouplist[..]), old(slavelist[..]), group, |times|)
    // the group of the first clock has it as its reference clock, and no other group has a new one
    ensures ReferencesSet(old(grouplist[..]), grouplist[..], old(slavelist[..]), group)
    ensures ClocksInOrder(slavelist[..], slavelist.Length)
    ensures forall k :: 1 <= k < slavelist.Length ==> slavelist[k].hasdc == old(slavelist[k]).hasdc
    ensures hasdc == slavelist[0].hasdc
  {
    hide DcStep;
    hide ReferencesSet;
    var parenthold, prevDCslave := 0, 0;
    slavelist[0] := slavelist[0].(hasdc := false);
    grouplist[0] := grouplist[0].(hasdc := false);
    ghost var start := old(slavelist[..]);
    for i := 1 to slavelist.Length
      invariant DcState(slavelist[..], parenthold, prevDCslave) == DcRun(start, times, i)
      invariant grouplist[..] == GroupsAfter(old(grouplist[..]), start, group, i)
    {
      assert start[i].hasdc ==> start[i].activeports & 0x0f != 0;
      MasterHasClock(start, times, i);
      parenthold, prevDCslave := HandleSlave(slavelist, grouplist, group[i], i, parenthold, prevDCslave, times[i]);
    }
    ClocksAreLinked(start, times, slavelist.Length);
    GroupsAre(old(grouplist[..]), start, group);
    hasdc := slavelist[0].hasdc;
  }

  /** The body of the loop of `ConfigDc`. */
  method HandleSlave(slavelist: array<Slave>, grouplist: array<GroupClock>, group: nat,
                     i: nat, hold: nat, prev: nat, t: Times)
      returns (parenthold: nat, prevDCslave: nat)
    requires 1 <= i < slavelist.Length && hold < i && prev < i && group < grouplist.Length
    requires ParentsFirst(slavelist[..])
    requires slavelist[i].hasdc ==> slavelist[i].activeports & 0x0f != 0
    modifies slavelist, grouplist
    ensures DcState(slavelist[..], parenthold, prevDCslave) == DcStep(DcState(old(slavelist[..]), hold, prev), i, t)
    ensures grouplist[..] == if old(slavelist[i].hasdc && !slavelist[0].hasdc)
                             then Referenced(old(grouplist[..]), group, i) else old(grouplist[..])
  {
    parenthold, prevDCslave := hold, prev;
    slavelist[i] := slavelist[i].(consumedports := slavelist[i].activeports);
    if slavelist[i].hasdc {
      MeasureClock(slavelist, grouplist, group, i, prevDCslave, t);
      parenthold := 0;
      prevDCslave := i;
    } else {
      parenthold := SkipSlave(slavelist, i, parenthold);
    }
  }

  method MeasureClock(slavelist: array<Slave>, grouplist: array<GroupClock>, group: nat,
                      i: nat, prevDCslave: nat, t: Times)
    requires prevDCslave < i < slavelist.Length && group < grouplist.Length
    requires ParentsFirst(slavelist[..]) && slavelist[i].activeports & 0x0f != 0
    modifies slavelist, grouplist
    ensures slavelist[..] == ClockSlave(old(slavelist[..]), i, prevDCslave, t)
    ensures grouplist[..] == if old(slavelist[0].hasdc) then old(grouplist[..])
                             else Referenced(old(grouplist[..]), group, i)
  {
    JoinList(slavelist, grouplist, group, i, prevDCslave);
    LatchTimes(slavelist, i, t);
    var child, parent := FindDcParent(slavelist, i);
    if parent > 0 {
      MeasureDelay(slavelist, i, child, parent);
    }
  }

  method LatchTimes(slavelist: array<Slave>, i: nat, t: Times)
    requires i < slavelist.Length && slavelist[i].activeports & 0x0f != 0
    modifies slavelist
    ensures slavelist[..] == old(slavelist[..])[i := Enter(Stamp(old(slavelist[i]), t))]
  {
    slavelist[i] := Stamp(slavelist[i], t);
    var entryport := FindEntryPort(slavelist[i]);
    slavelist[i] := slavelist[i].(entryport := entryport,
                                  consumedports := slavelist[i].consumedports & !PortMask(entryport));
  }

  method SkipSlave(slavelist: array<Slave>, i: nat, hold: nat) returns (parenthold: nat)
    requires hold < i < slavelist.Length
    requires ParentsFirst(slavelist[..])
    modifies slavelist
    ensures (slavelist[..], parenthold) == PlainSlave(old(slavelist[..]), i, hold)
  {
    parenthold := hold;
    slavelist[i] := slavelist[i].(DCrtA := 0, DCrtB := 0, DCrtC := 0, DCrtD := 0);
    var parent := slavelist[i].parent;
    // no DC slave on first position of the branch: hold root parent
    if parent > 0 && slavelist[parent].topology > 2 {
      parenthold := parent;
    }
    // branch has no DC slaves: consume port on root parent
    if parenthold > 0 && slavelist[i].topology == 1 {
      var _ := ParentPort(slavelist, parenthold);
      parenthold := 0;
    }
  }

  method JoinList(slavelist: array<Slave>, grouplist: array<GroupClock>, group: nat, i: nat, prevDCslave: nat)
    requires prevDCslave < i < slavelist.Length && group < grouplist.Length
    modifies slavelist, grouplist
    ensures slavelist[..] == Join(old(slavelist[..]), i, prevDCslave)
    ensures grouplist[..] == if old(slavelist[0].hasdc) then old(grouplist[..])
                             else Referenced(old(grouplist[..]), group, i)
  {
    if !slavelist[0].hasdc {
      slavelist[0] := slavelist[0].(hasdc := true);
      slavelist[0] := slavelist[0].(DCnext := i);
      slavelist[i] := slavelist[i].(DCprevious := 0);
      grouplist[group] := grouplist[group].(hasdc := true);
      grouplist[group] := grouplist[group].(DCnext := i);
    } else {
      slavelist[prevDCslave] := slavelist[prevDCslave].(DCnext := i);
      slavelist[i] := slavelist[i].(DCprevious := prevDCslave);
    }
  }

  method FindDcParent(slavelist: array<Slave>, i: nat) returns (child: nat, parent: nat)
    requires 1 <= i < slavelist.Length && ParentsFirst(slavelist[..])
    ensures (child, parent) == DcParent(slavelist[..], i)
  {
    child := i;
    parent := slavelist[i].parent;
    while !(parent == 0 || slavelist[parent].hasdc)
      invariant 1 <= child <= i && parent == slavelist[child].parent < child
      invariant DcParent(slavelist[..], child) == DcParent(slavelist[..], i)
    {
      child := parent;
      parent := slavelist[parent].parent;
    }
  }

  method MeasureDelay(slavelist: array<Slave>, i: nat, child: nat, parent: nat)
    requires 1 <= i < slavelist.Length && parent < child <= i
    modifies slavelist
    ensures slavelist[..] == Measure(old(slavelist[..]), i, child, parent)
  {
    var parentport := ParentPort(slavelist, parent);
    if slavelist[parent].topology == 1 {
      parentport := slavelist[parent].entryport;
    }
    slavelist[i] := slavelist[i].(parentport := parentport);
    var pdelay := ComputeDelay(slavelist[parent], slavelist[i], child - parent > 1);
    slavelist[i] := slavelist[i].(pdelay := pdelay);
  }
}
