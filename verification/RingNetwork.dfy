/** A line of slaves between the two ports of a redundant master, with at most one cable broken:
    where a frame goes, and which slaves process it. */
module RingNetwork {
  import opened EcTypes
  import opened Datagram
  import opened Port

  /** What a slave's processing unit makes of a frame, without the Ethernet header. */
  datatype Unit = Unit(process: seq<byte> -> seq<byte>)

  /** Processing changes neither the size of a frame nor length, command and index in its header. */
  ghost predicate WellBehaved(u: Unit) {
    forall f :: |f| >= 4 ==> |u.process(f)| == |f| && u.process(f)[..4] == f[..4]
  }

  ghost predicate GoodLine(line: seq<Unit>) {
    |line| > 0 && forall i :: 0 <= i < |line| ==> WellBehaved(line[i])
  }

  function Process(u: Unit, p: Packet): Packet {
    if |p| < ETH_HEADERSIZE then p else p[..ETH_HEADERSIZE] + u.process(p[ETH_HEADERSIZE..])
  }

  /** The frame once slaves `lo` to `hi - 1` have processed it in this order. */
  function Traverse(line: seq<Unit>, lo: nat, hi: nat, p: Packet): Packet
    requires lo <= hi <= |line|
  {
    if lo == hi then p else Process(line[hi - 1], Traverse(line, lo, hi - 1, p))
  }

  datatype Exit = AtPrimary(p: Packet) | AtSecondary(p: Packet) | Lost

  /** A frame comes to slave `i` from the side of the primary port: the slave processes it and
      passes it on, or sends it back if the cable behind it is broken. Cable `i` is the one in
      front of slave `i`; the last cable leads to the secondary port. */
  function Forward(line: seq<Unit>, broken: Option<nat>, i: nat, p: Packet): Exit
    requires i < |line|
    decreases if broken.Some? && broken.value > i then 1 else 0, |line| - i
  {
    var q := Process(line[i], p);
    if broken == Some(i + 1) then Backward(line, broken, i, q)
    else if i + 1 == |line| then AtSecondary(q)
    else Forward(line, broken, i + 1, q)
  }

  /** A frame comes back to slave `i` from the side of the secondary port: it is passed on
      without processing, unless the cable in front of the slave is broken. */
  function Backward(line: seq<Unit>, broken: Option<nat>, i: nat, p: Packet): Exit
    requires i < |line|
    decreases if broken.Some? && broken.value <= i then 1 else 0, i
  {
    if broken == Some(i) then Forward(line, broken, i, p)
    else if i == 0 then AtPrimary(p)
    else Backward(line, broken, i - 1, p)
  }

  function SendPrimary(line: seq<Unit>, broken: Option<nat>, p: Packet): Exit
    requires |line| > 0
  {
    if broken == Some(0) then Lost else Forward(line, broken, 0, p)
  }

  function SendSecondary(line: seq<Unit>, broken: Option<nat>, p: Packet): Exit
    requires |line| > 0
  {
    if broken == Some(|line|) then Lost else Backward(line, broken, |line| - 1, p)
  }

  lemma {:induction false} TraverseFirst(line: seq<Unit>, lo: nat, hi: nat, p: Packet)
    requires lo < hi <= |line|
    ensures Traverse(line, lo, hi, p) == Traverse(line, lo + 1, hi, Process(line[lo], p))
    decreases hi
  {
    if lo + 1 < hi {
      TraverseFirst(line, lo, hi - 1, p);
    }
  }

  /** Two partial traversals in sequence make a whole one. */
  lemma {:induction false} TraverseJoins(line: seq<Unit>, k: nat, hi: nat, p: Packet)
    requires k <= hi <= |line|
    ensures Traverse(line, k, hi, Traverse(line, 0, k, p)) == Traverse(line, 0, hi, p)
  {
    if k < hi {
      TraverseJoins(line, k, hi - 1, p);
    }
  }

  lemma {:induction false} ForwardExits(line: seq<Unit>, broken: Option<nat>, i: nat, p: Packet)
    requires i < |line|
    ensures Forward(line, broken, i, p) ==
            if broken.Some? && i < broken.value <= |line| then AtPrimary(Traverse(line, i, broken.value, p))
            else AtSecondary(Traverse(line, i, |line|, p))
    decreases |line| - i
  {
    var end := if broken.Some? && i < broken.value <= |line| then broken.value else |line|;
    TraverseFirst(line, i, end, p);
    var q := Process(line[i], p);
    hide Process;
    if broken == Some(i + 1) {
      GoesBack(line, broken, i, q);
    } else if i + 1 < |line| {
      ForwardExits(line, broken, i + 1, q);
    }
  }

  /** On its way back to the primary port a frame is not processed. */
  lemma {:induction false} GoesBack(line: seq<Unit>, broken: Option<nat>, i: nat, p: Packet)
    requires i < |line| && (broken.Some? ==> broken.value > i)
    ensures Backward(line, broken, i, p) == AtPrimary(p)
    decreases i
  {
    if i > 0 {
      GoesBack(line, broken, i - 1, p);
    }
  }

  lemma {:induction false} BackwardExits(line: seq<Unit>, broken: Option<nat>, i: nat, p: Packet)
    requires i < |line|
    ensures Backward(line, broken, i, p) ==
            if broken.Some? && broken.value <= i then AtSecondary(Traverse(line, broken.value, |line|, p))
            else AtPrimary(p)
    decreases i
  {
    if broken == Some(i) {
      ForwardExits(line, broken, i, p);
    } else if i > 0 {
      BackwardExits(line, broken, i - 1, p);
    }
  }

  /** Where the two frames of a redundant transmission come out. */
  lemma {:induction false} RingExits(line: seq<Unit>, broken: Option<nat>, p: Packet)
    requires |line| > 0 && (broken.Some? ==> broken.value <= |line|)
    ensures SendPrimary(line, broken, p) ==
            if broken.None? then AtSecondary(Traverse(line, 0, |line|, p))
            else if broken.value == 0 then Lost else AtPrimary(Traverse(line, 0, broken.value, p))
    ensures SendSecondary(line, broken, p) ==
            if broken.None? then AtPrimary(p)
            else if broken.value == |line| then Lost else AtSecondary(Traverse(line, broken.value, |line|, p))
  {
    if broken != Some(0) {
      ForwardExits(line, broken, 0, p);
    }
    if broken != Some(|line|) {
      BackwardExits(line, broken, |line| - 1, p);
    }
  }

  lemma {:induction false} SameStart(p: seq<byte>, g: seq<byte>)
    requires |p| >= 18 && |g| == |p| - ETH_HEADERSIZE && g[..4] == p[ETH_HEADERSIZE..][..4]
    ensures (p[..ETH_HEADERSIZE] + g)[..18] == p[..18]
  {
    assert (p[..ETH_HEADERSIZE] + g)[..18] == p[..14] + g[..4];
    assert p[..18] == p[..14] + p[14..][..4];
  }

  lemma {:induction false} ProcessKeeps(u: Unit, p: Packet)
    requires WellBehaved(u) && |p| >= 18
    ensures |Process(u, p)| == |p| && Process(u, p)[..18] == p[..18]
  {
    var g := u.process(p[ETH_HEADERSIZE..]);
    assert |g| == |p| - ETH_HEADERSIZE && g[..4] == p[ETH_HEADERSIZE..][..4];
    hide WellBehaved;
    SameStart(p, g);
  }

  /** Slaves leave the Ethernet header, and length, command and index of the frame as they are. */
  lemma {:induction false} TraverseKeeps(line: seq<Unit>, lo: nat, hi: nat, p: Packet)
    requires GoodLine(line) && lo <= hi <= |line| && |p| >= 18
    ensures |Traverse(line, lo, hi, p)| == |p| && Traverse(line, lo, hi, p)[..18] == p[..18]
    decreases hi
  {
    hide Process;
    hide WellBehaved;
    if lo < hi {
      TraverseKeeps(line, lo, hi - 1, p);
      ProcessKeeps(line[hi - 1], Traverse(line, lo, hi - 1, p));
    }
  }
}
