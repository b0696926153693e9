/**
 The physical network that topology discovery and delay measurement look at: a
 tree of slaves joined by cables. The master's frame enters a slave at port 0 and
 is forwarded through ports 3, 1 and 2, in that order, before it leaves again
 through port 0. A port without a link is `Open`.
 */
module NetworkTree {

  /** `cable` is the one-way delay from the parent, `clock` the offset of the
      slave's local clock against the time of the observer. */
  datatype Line =
    | Open
    | Slave(clock: int, cable: nat, port3: Line, port1: Line, port2: Line)

  function Size(t: Line): nat {
    match t
    case Open => 0
    case Slave(_, _, p3, p1, p2) => 1 + Size(p3) + Size(p1) + Size(p2)
  }

  /** Time between a frame leaving the parent's port and coming back to it. */
  function RoundTrip(t: Line): nat {
    match t
    case Open => 0
    case Slave(_, cable, p3, p1, p2) => 2 * cable + RoundTrip(p3) + RoundTrip(p1) + RoundTrip(p2)
  }

  /** Number of links of a slave: the one to its parent and one per child. */
  function Links(t: Line): (n: nat)
    requires t.Slave?
    ensures 1 <= n <= 4
  {
    1 + (if t.port3.Slave? then 1 else 0)
      + (if t.port1.Slave? then 1 else 0)
      + (if t.port2.Slave? then 1 else 0)
  }

  /** Bit p is set when port p has a link. */
  function Ports(t: Line): bv8
    requires t.Slave?
  {
    0x01 | (if t.port3.Slave? then 0x08 else 0)
         | (if t.port1.Slave? then 0x02 else 0)
         | (if t.port2.Slave? then 0x04 else 0)
  }

  /** What is true of one slave of the network: the number of its parent, the port of
      the parent it hangs on, the time the frame arrives, and the subtree below it. */
  datatype Station = Station(parent: nat, port: nat, arrival: int, node: Line)

  // The numbers of the slaves on ports 3, 1 and 2 of slave `i`, and of the one behind its subtree.
  function At3(s: seq<Station>, i: nat): (n: nat)
    requires i < |s|
  {
    i + 1
  }

  function At1(s: seq<Station>, i: nat): (n: nat)
    requires i < |s| && s[i].node.Slave?
  {
    i + 1 + Size(s[i].node.port3)
  }

  function At2(s: seq<Station>, i: nat): (n: nat)
    requires i < |s| && s[i].node.Slave?
  {
    At1(s, i) + Size(s[i].node.port1)
  }

  function End(s: seq<Station>, i: nat): (n: nat)
    requires i < |s| && s[i].node.Slave?
    ensures n == i + Size(s[i].node)
  {
    At2(s, i) + Size(s[i].node.port2)
  }

  /** The slave on a linked port of slave `i` has number `n`; the frame leaves that port
      `delay` after it arrived at slave `i`. */
  predicate Hangs(s: seq<Station>, i: nat, port: nat, delay: nat, branch: Line, n: nat)
    requires i < |s|
  {
    branch.Slave? ==>
      n < |s| && s[n] == Station(i, port, s[i].arrival + delay + branch.cable, branch)
  }

  /** The frame visits slave `i` first and then what hangs on ports 3, 1 and 2. */
  predicate FrameOrder(s: seq<Station>, i: nat)
    requires i < |s|
  {
    var t := s[i].node;
    && t.Slave?
    && End(s, i) <= |s|
    && Hangs(s, i, 3, 0, t.port3, At3(s, i))
    && Hangs(s, i, 1, RoundTrip(t.port3), t.port1, At1(s, i))
    && Hangs(s, i, 2, RoundTrip(t.port3) + RoundTrip(t.port1), t.port2, At2(s, i))
  }

  /** The network as the master numbers it: slave 1 is the first one, its parent is the
      master, which is number 0. */
  ghost predicate IsNetwork(s: seq<Station>, t: Line) {
    && |s| == Size(t) + 1
    && (t.Slave? ==> s[1] == Station(0, 0, t.cable, t))
    && forall i :: 1 <= i < |s| ==> FrameOrder(s, i)
  }

  /** Slave `n` hangs on a port of slave `i`. */
  predicate IsChild(s: seq<Station>, i: nat, n: nat)
    requires i < |s| && s[i].node.Slave?
  {
    || (s[i].node.port3.Slave? && n == At3(s, i))
    || (s[i].node.port1.Slave? && n == At1(s, i))
    || (s[i].node.port2.Slave? && n == At2(s, i))
  }

  /** Every slave behind slave `i` hangs on a slave there that has a smaller number. */
  lemma {:induction false} ParentInside(s: seq<Station>, t: Line, i: nat, k: nat)
    requires IsNetwork(s, t) && 1 <= i < k < |s| && FrameOrder(s, i) && k < End(s, i)
    ensures i <= s[k].parent < k && FrameOrder(s, s[k].parent) && IsChild(s, s[k].parent, k)
    decreases s[i].node
  {
    if k < At1(s, i) {
      if k > At3(s, i) {
        ParentInside(s, t, At3(s, i), k);
      }
    } else if k < At2(s, i) {
      if k > At1(s, i) {
        ParentInside(s, t, At1(s, i), k);
      }
    } else if k > At2(s, i) {
      ParentInside(s, t, At2(s, i), k);
    }
  }

  /** Slave number `i` of the tree `t` whose first slave is number `base`; the frame leaves
      port `port` of slave `parent` for it at time `sent`. */
  function Locate(t: Line, base: nat, parent: nat, port: nat, sent: int, i: nat): Station
    requires base <= i < base + Size(t)
    decreases t
  {
    var a := sent + t.cable;
    var n1 := base + 1 + Size(t.port3);
    var n2 := n1 + Size(t.port1);
    if i == base then Station(parent, port, a, t)
    else if i < n1 then Locate(t.port3, base + 1, base, 3, a, i)
    else if i < n2 then Locate(t.port1, n1, base, 1, a + RoundTrip(t.port3), i)
    else Locate(t.port2, n2, base, 2, a + RoundTrip(t.port3) + RoundTrip(t.port1), i)
  }

  ghost predicate Lists(s: seq<Station>, t: Line, base: nat, parent: nat, port: nat, sent: int) {
    && base + Size(t) <= |s|
    && forall i {:trigger s[i]} :: base <= i < base + Size(t) ==> s[i] == Locate(t, base, parent, port, sent, i)
  }

  /** A list that locates a whole tree locates the branches of its first slave. */
  lemma {:induction false} ListsBranches(s: seq<Station>, t: Line, base: nat, parent: nat, port: nat, sent: int)
    requires t.Slave? && Lists(s, t, base, parent, port, sent)
    ensures var a := sent + t.cable;
            var n1 := base + 1 + Size(t.port3);
            && s[base] == Station(parent, port, a, t)
            && Lists(s, t.port3, base + 1, base, 3, a)
            && Lists(s, t.port1, n1, base, 1, a + RoundTrip(t.port3))
            && Lists(s, t.port2, n1 + Size(t.port1), base, 2, a + RoundTrip(t.port3) + RoundTrip(t.port1))
  {
  }

  lemma {:induction false} ListsFirst(s: seq<Station>, t: Line, base: nat, parent: nat, port: nat, sent: int)
    requires Lists(s, t, base, parent, port, sent)
    ensures t.Slave? ==> base < |s| && s[base] == Station(parent, port, sent + t.cable, t)
  {
  }

  lemma {:induction false} BranchHangs(s: seq<Station>, i: nat, port: nat, delay: nat, branch: Line, n: nat)
    requires i < |s| && Lists(s, branch, n, i, port, s[i].arrival + delay)
    ensures Hangs(s, i, port, delay, branch, n)
  {
    ListsFirst(s, branch, n, i, port, s[i].arrival + delay);
    hide Lists;
    hide Locate;
  }

  lemma {:induction false} FirstInFrameOrder(s: seq<Station>, t: Line, base: nat, parent: nat, port: nat, sent: int)
    requires t.Slave? && Lists(s, t, base, parent, port, sent)
    ensures FrameOrder(s, base)
  {
    hide Lists;
    hide Hangs;
    hide RoundTrip;
    hide Size;
    SizeParts(t);
    ListsFit(s, t, base, parent, port, sent);
    ListsBranches(s, t, base, parent, port, sent);
    var d1, d2 := RoundTrip(t.port3), RoundTrip(t.port3) + RoundTrip(t.port1);
    assert sent + t.cable == s[base].arrival + 0;
    assert sent + t.cable + RoundTrip(t.port3) + RoundTrip(t.port1) == s[base].arrival + d2;
    BranchHangs(s, base, 3, 0, t.port3, At3(s, base));
    BranchHangs(s, base, 1, d1, t.port1, At1(s, base));
    BranchHangs(s, base, 2, d2, t.port2, At2(s, base));
  }

  lemma {:induction false} ListsFit(s: seq<Station>, t: Line, base: nat, parent: nat, port: nat, sent: int)
    requires Lists(s, t, base, parent, port, sent)
    ensures base + Size(t) <= |s|
  {
  }

  lemma {:induction false} ListsInFrameOrder(
    s: seq<Station>, t: Line, base: nat, parent: nat, port: nat, sent: int, i: nat)
    requires Lists(s, t, base, parent, port, sent)
    requires base <= i < base + Size(t)
    ensures i < |s| && FrameOrder(s, i)
    decreases t
  {
    hide Lists;
    hide FrameOrder;
    hide RoundTrip;
    hide Size;
    SizeParts(t);
    ListsFit(s, t, base, parent, port, sent);
    if i == base {
      FirstInFrameOrder(s, t, base, parent, port, sent);
    } else {
      ListsBranches(s, t, base, parent, port, sent);
      var a := sent + t.cable;
      var n1 := base + 1 + Size(t.port3);
      if i < n1 {
        ListsInFrameOrder(s, t.port3, base + 1, base, 3, a, i);
      } else if i < n1 + Size(t.port1) {
        ListsInFrameOrder(s, t.port1, n1, base, 1, a + RoundTrip(t.port3), i);
      } else {
        ListsInFrameOrder(s, t.port2, n1 + Size(t.port1), base, 2, a + RoundTrip(t.port3) + RoundTrip(t.port1), i);
      }
    }
  }

  lemma {:induction false} SizeParts(t: Line)
    ensures Size(t) == if t.Open? then 0 else 1 + Size(t.port3) + Size(t.port1) + Size(t.port2)
  {
  }

  /** Every tree of slaves is a network, with the numbers that `Locate` gives. */
  lemma {:induction false} EveryTreeIsANetwork(t: Line) returns (s: seq<Station>)
    ensures IsNetwork(s, t)
  {
    s := seq(Size(t) + 1, i requires 0 <= i <= Size(t) =>
      if i == 0 then Station(0, 0, 0, Open) else Locate(t, 1, 0, 0, 0, i));
    ListsFirst(s, t, 1, 0, 0, 0);
    forall i | 1 <= i < |s| ensures FrameOrder(s, i) {
      ListsInFrameOrder(s, t, 1, 0, 0, 0, i);
    }
  }
}
