/** The backward scan that finds each slave's parent (ec_config.c). */
module Topology {
  import opened NetworkTree
  import opened SlaveList

  /** How one slave changes the count of links that are still looking for a child. */
  function Delta(topology: nat): int {
    if topology == 1 then -1
    else if topology == 3 then 1
    else if topology == 4 then 2
    else 0
  }

  /** Links left open by the slaves `lo` .. `hi` - 1. */
  function Surplus(topology: seq<nat>, lo: nat, hi: nat): int
    requires lo <= hi <= |topology|
    decreases hi - lo
  {
    if lo == hi then 0 else Delta(topology[lo]) + Surplus(topology, lo + 1, hi)
  }

  /** Slave `j` has a link left for slave `slave` once everything in between is placed. */
  predicate Adopts(topology: seq<nat>, j: nat, slave: nat)
    requires j < slave <= |topology|
  {
    topology[j] > 1 && Surplus(topology, j, slave) >= 0
  }

  /** `parent` is the nearest predecessor that can adopt `slave`, or slave 1 when none can. */
  ghost predicate NearestAdopter(topology: seq<nat>, slave: nat, parent: nat)
    requires 1 < slave <= |topology|
  {
    && 1 <= parent < slave
    && (parent == 1 || Adopts(topology, parent, slave))
    && forall j :: parent < j < slave ==> !Adopts(topology, j, slave)
  }

  function Topologies(slaves: seq<Slave>): (t: seq<nat>)
    ensures |t| == |slaves| && forall k :: 0 <= k < |t| ==> t[k] == slaves[k].topology
  {
    seq(|slaves|, k requires 0 <= k < |slaves| => slaves[k].topology)
  }

  /** Searches the parent of `slave` among the slaves before it; 0 is the master. */
  method FindParent(slavelist: array<Slave>, slave: nat) returns (parent: nat)
    requires 1 <= slave < slavelist.Length
    ensures slave == 1 ==> parent == 0
    ensures slave > 1 ==> NearestAdopter(Topologies(slavelist[..]), slave, parent)
  {
    parent := 0;
    if slave > 1 {
      ghost var topologies := Topologies(slavelist[..]);
      var topoc := 0;
      var slavec := slave - 1;
      ghost var at := slave;  // the last position counted, while no parent is found
      while slavec > 0
        invariant 0 <= slavec < slave
        invariant parent == 0 ==> slavec == at - 1 && 1 < at <= slave
        invariant parent == 0 ==> topoc == Surplus(topologies, at, slave)
        invariant parent == 0 ==> forall j :: at <= j < slave ==> !Adopts(topologies, j, slave)
        invariant parent != 0 ==> slavec == 0 && NearestAdopter(topologies, slave, parent)
        invariant slavec == 0 ==> parent != 0
      {
        at := slavec;
        var topology := slavelist[slavec].topology;
        assert topology == topologies[slavec];
        if topology == 1 {
          topoc := topoc - 1;
        }
        if topology == 3 {
          topoc := topoc + 1;
        }
        if topology == 4 {
          topoc := topoc + 2;
        }
        if (topoc >= 0 && topology > 1) || slavec == 1 {
          parent := slavec;
          slavec := 1;
        }
        slavec := slavec - 1;
      }
    }
  }

  /** Port `p` of the DL status register is open and communicates. */
  predicate PortUp(dlstatus: bv16, p: nat)
    requires p < 4
  {
    dlstatus & (0x0300 << (2 * p)) == 0x0200 << (2 * p)
  }

  /** Port by port: the loop is open, and there is communication. */
  lemma {:induction false} PortsRead(dlstatus: bv16)
    ensures PortUp(dlstatus, 0) <==> dlstatus & 0x0100 == 0 && dlstatus & 0x0200 != 0
    ensures PortUp(dlstatus, 1) <==> dlstatus & 0x0400 == 0 && dlstatus & 0x0800 != 0
    ensures PortUp(dlstatus, 2) <==> dlstatus & 0x1000 == 0 && dlstatus & 0x2000 != 0
    ensures PortUp(dlstatus, 3) <==> dlstatus & 0x4000 == 0 && dlstatus & 0x8000 != 0
  {
  }

  function LinkCount(dlstatus: bv16): nat {
    (if PortUp(dlstatus, 0) then 1 else 0) + (if PortUp(dlstatus, 1) then 1 else 0)
    + (if PortUp(dlstatus, 2) then 1 else 0) + (if PortUp(dlstatus, 3) then 1 else 0)
  }

  function ActivePorts(dlstatus: bv16): bv8 {
    (if PortUp(dlstatus, 0) then 0x01 else 0) | (if PortUp(dlstatus, 1) then 0x02 else 0)
    | (if PortUp(dlstatus, 2) then 0x04 else 0) | (if PortUp(dlstatus, 3) then 0x08 else 0)
  }

  /** Decodes the DL status register of one slave. */
  method CountLinks(dlstatus: bv16) returns (h: nat, b: bv8)
    ensures h == LinkCount(dlstatus) && b == ActivePorts(dlstatus)
  {
    h, b := 0, 0;
    if dlstatus & 0x0300 == 0x0200 {
      h := h + 1;
      b := b | 0x01;
    }
    if dlstatus & 0x0c00 == 0x0800 {
      h := h + 1;
      b := b | 0x02;
    }
    if dlstatus & 0x3000 == 0x2000 {
      h := h + 1;
      b := b | 0x04;
    }
    if dlstatus & 0xc000 == 0x8000 {
      h := h + 1;
      b := b | 0x08;
    }
  }

  /** What discovery stores for slave `k`: the decoded links, and the parent the scan finds. */
  ghost predicate Discovered(slaves: seq<Slave>, k: nat, was: Slave, dlstatus: bv16)
    requires 1 <= k < |slaves|
  {
    && slaves[k] == was.(topology := LinkCount(dlstatus), activeports := ActivePorts(dlstatus),
       parent := slaves[k].parent)
    && (if k == 1 then slaves[k].parent == 0 else NearestAdopter(Topologies(slaves), k, slaves[k].parent))
  }

  /** Reads the DL status of every slave and builds the tree; index 0 is the master. */
  method ReadTopology(slavelist: array<Slave>, dlstatus: seq<bv16>)
    requires 1 <= slavelist.Length == |dlstatus|
    modifies slavelist
    ensures slavelist[0] == old(slavelist[0])
    ensures forall k :: 1 <= k < slavelist.Length ==>
      Discovered(slavelist[..], k, old(slavelist[k]), dlstatus[k])
  {
    for slave := 1 to slavelist.Length
      invariant slavelist[0] == old(slavelist[0])
      invariant forall k :: slave <= k < slavelist.Length ==> slavelist[k] == old(slavelist[k])
      invariant forall k :: 1 <= k < slave ==>
        Discovered(slavelist[..], k, old(slavelist[k]), dlstatus[k])
    {
      ghost var before := slavelist[..];
      var h, b := CountLinks(dlstatus[slave]);
      slavelist[slave] := slavelist[slave].(topology := h, activeports := b);
      ghost var middle := slavelist[..];
      var parent := FindParent(slavelist, slave);
      slavelist[slave] := slavelist[slave].(parent := parent);
      ghost var after := slavelist[..];
      if slave > 1 {
        SamePrefix(Topologies(middle), Topologies(after), slave, parent);
      }
      forall k | 1 <= k < slave
        ensures Discovered(after, k, old(slavelist[k]), dlstatus[k])
      {
        assert Discovered(before, k, old(slavelist[k]), dlstatus[k]);
        if k > 1 {
          SamePrefix(Topologies(before), Topologies(after), k, after[k].parent);
        }
      }
    }
  }

  /** The parent of a slave depends only on the slaves before it. */
  lemma {:induction false} SamePrefix(a: seq<nat>, b: seq<nat>, slave: nat, parent: nat)
    requires 1 < slave <= |a| && slave <= |b|
    requires forall k :: 1 <= k < slave ==> a[k] == b[k]
    ensures NearestAdopter(a, slave, parent) <==> NearestAdopter(b, slave, parent)
  {
    forall j | 1 <= j < slave ensures Adopts(a, j, slave) <==> Adopts(b, j, slave) {
      SameSurplus(a, b, j, slave);
    }
  }

  lemma {:induction false} SameSurplus(a: seq<nat>, b: seq<nat>, lo: nat, hi: nat)
    requires 1 <= lo <= hi <= |a| && hi <= |b|
    requires forall k :: 1 <= k < hi ==> a[k] == b[k]
    ensures Surplus(a, lo, hi) == Surplus(b, lo, hi)
    decreases hi - lo
  {
    if lo < hi {
      SameSurplus(a, b, lo + 1, hi);
    }
  }

  lemma {:induction false} SurplusSplit(topology: seq<nat>, lo: nat, mid: nat, hi: nat)
    requires lo <= mid <= hi <= |topology|
    ensures Surplus(topology, lo, hi) == Surplus(topology, lo, mid) + Surplus(topology, mid, hi)
    decreases mid - lo
  {
    if lo < mid {
      SurplusSplit(topology, lo + 1, mid, hi);
    }
  }

  /** `topology` holds the link counts of the network `s`. */
  ghost predicate LinksOf(topology: seq<nat>, s: seq<Station>) {
    && |topology| == |s|
    && forall k :: 1 <= k < |s| && s[k].node.Slave? ==> topology[k] == Links(s[k].node)
  }

  /** Where the branches of slave `i` begin and end, and the slaves that begin them. */
  lemma {:induction false} NodeInside(s: seq<Station>, t: Line, i: nat)
    requires IsNetwork(s, t) && 1 <= i < |s| && FrameOrder(s, i)
    ensures s[i].node.Slave? && i + 1 == At3(s, i) <= At1(s, i) <= At2(s, i) <= End(s, i) <= |s|
    ensures var n := s[i].node;
            && (n.port3.Slave? ==> At3(s, i) < |s| && s[At3(s, i)].node == n.port3 && FrameOrder(s, At3(s, i)))
            && (n.port1.Slave? ==> At1(s, i) < |s| && s[At1(s, i)].node == n.port1 && FrameOrder(s, At1(s, i)))
            && (n.port2.Slave? ==> At2(s, i) < |s| && s[At2(s, i)].node == n.port2 && FrameOrder(s, At2(s, i)))
  {
    hide RoundTrip;
  }

  /** A whole subtree closes exactly one link, and none of its slaves has a link left
      for anybody behind the subtree. */
  lemma {:induction false} SubtreeClosesOneLink(
    topology: seq<nat>, s: seq<Station>, t: Line, i: nat, end: nat)
    requires LinksOf(topology, s) && IsNetwork(s, t)
    requires 1 <= i < |s| && FrameOrder(s, i) && end == End(s, i)
    ensures end <= |s| && Surplus(topology, i, end) == -1
    ensures forall j :: i <= j < end ==> Surplus(topology, j, end) < 0
    decreases s[i].node, 0
  {
    hide Size;
    hide FrameOrder;
    NodeInside(s, t, i);
    var node := s[i].node;
    Branch(topology, s, t, i, node.port3, At3(s, i), At1(s, i), end);
    Branch(topology, s, t, i, node.port1, At1(s, i), At2(s, i), end);
    Branch(topology, s, t, i, node.port2, At2(s, i), end, end);
  }

  /** The slaves `lo` .. `hi` - 1 behind one port of slave `i`, seen from `end`. */
  lemma {:induction false} Branch(
    topology: seq<nat>, s: seq<Station>, t: Line, i: nat, branch: Line, lo: nat, hi: nat, end: nat)
    requires LinksOf(topology, s) && IsNetwork(s, t)
    requires 1 <= i < |s| && FrameOrder(s, i)
    requires hi == lo + Size(branch) <= end <= |s|
    requires branch.Slave? ==> 1 <= lo < |s| && s[lo].node == branch && FrameOrder(s, lo)
    ensures Surplus(topology, lo, end) == Surplus(topology, hi, end) - (if branch.Slave? then 1 else 0)
    ensures forall j :: lo <= j < hi ==> Surplus(topology, j, end) < Surplus(topology, hi, end)
    decreases branch, 1
  {
    if branch.Slave? {
      SubtreeClosesOneLink(topology, s, t, lo, hi);
      SurplusSplit(topology, lo, hi, end);
      forall j | lo <= j < hi ensures Surplus(topology, j, end) < Surplus(topology, hi, end) {
        SurplusSplit(topology, j, hi, end);
      }
    }
  }

  /** Of the slaves from `p` on, `p` is the only one with a link left for slave `k`. */
  ghost predicate OnlyAdopter(topology: seq<nat>, p: nat, k: nat) {
    && p < k <= |topology|
    && Adopts(topology, p, k)
    && forall j :: p < j < k ==> !Adopts(topology, j, k)
  }

  /** The earlier branches of slave `i` are closed when the frame reaches its next child. */
  lemma {:induction false} NextChildIsAdopted(topology: seq<nat>, s: seq<Station>, t: Line, i: nat, k: nat)
    requires LinksOf(topology, s) && IsNetwork(s, t)
    requires 1 <= i < k < |s| && FrameOrder(s, i) && s[k].parent == i
    requires k == At3(s, i) || k == At1(s, i) || k == At2(s, i)
    requires k < End(s, i)
    ensures OnlyAdopter(topology, i, k)
  {
    var node := s[i].node;
    if k >= At1(s, i) {
      Branch(topology, s, t, i, node.port3, At3(s, i), At1(s, i), k);
    }
    if k >= At2(s, i) {
      Branch(topology, s, t, i, node.port1, At1(s, i), At2(s, i), k);
    }
  }

  /** Inside a subtree, the only adopter of a slave is its tree parent. */
  lemma {:induction false} ScanFindsParentInside(topology: seq<nat>, s: seq<Station>, t: Line, i: nat, k: nat)
    requires LinksOf(topology, s) && IsNetwork(s, t)
    requires 1 <= i < k < |s| && FrameOrder(s, i) && k < End(s, i)
    ensures OnlyAdopter(topology, s[k].parent, k)
    decreases s[i].node
  {
    if k < At1(s, i) {
      if k == At3(s, i) {
        NextChildIsAdopted(topology, s, t, i, k);
      } else {
        ScanFindsParentInside(topology, s, t, At3(s, i), k);
      }
    } else if k < At2(s, i) {
      if k == At1(s, i) {
        NextChildIsAdopted(topology, s, t, i, k);
      } else {
        ScanFindsParentInside(topology, s, t, At1(s, i), k);
      }
    } else {
      if k == At2(s, i) {
        NextChildIsAdopted(topology, s, t, i, k);
      } else {
        ScanFindsParentInside(topology, s, t, At2(s, i), k);
      }
    }
  }

  /** For every tree of slaves, numbered in frame order, whatever the scan returns is the
      slave's true parent, and the true parent is an answer the scan may return. */
  lemma {:induction false} ScanFindsTreeParent(t: Line, s: seq<Station>, topology: seq<nat>, slave: nat, parent: nat)
    requires IsNetwork(s, t) && LinksOf(topology, s)
    requires 1 < slave < |s|
    ensures NearestAdopter(topology, slave, parent) <==> parent == s[slave].parent
  {
    ParentInside(s, t, 1, slave);
    ScanFindsParentInside(topology, s, t, 1, slave);
  }
}
