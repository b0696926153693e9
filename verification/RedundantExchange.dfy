/** A frame sent and received with redundancy, from the transmit buffer to the receive buffer: with a
    line of slaves between the two ports and at most one broken cable. */
module RedundantExchange {
  import opened EcTypes
  import opened Datagram
  import opened Port
  import opened RingNetwork
  import opened Redundancy

  /** What the sockets yield when the frame and the dummy are sent, and how the line reacts to a
      frame that is sent again. */
  datatype Traffic = Traffic(primary: seq<Option<Packet>>, secondary: seq<Option<Packet>>, react: Reaction)

  datatype Ring = Ring(line: seq<Unit>, broken: Option<nat>, traffic: (Packet, Packet) -> Traffic)

  /** A frame of the master and the dummy, both long enough for the working counter at their end. */
  ghost predicate SentPair(tx: Packet, dummy: Packet, lens: seq<nat>, idx: nat) {
    && idx < |lens| && |tx| == lens[idx] && Marked(tx, idx, RX_PRIM) && Marked(dummy, idx, RX_SEC)
    && WkcPos(tx[14..]) + 16 <= |tx| && WkcPos(dummy[14..]) + 16 <= |dummy|
  }

  /** The sockets and the line behave as the ring, with time enough for everything to come. */
  ghost predicate Behaves(ring: Ring, lens: seq<nat>, idx: nat, polls: nat, polls2: nat) {
    && GoodLine(ring.line) && (ring.broken.Some? ==> ring.broken.value <= |ring.line|)
    && forall tx, dummy :: SentPair(tx, dummy, lens, idx) ==> Answers(ring, tx, dummy, lens, idx, polls, polls2)
  }

  ghost predicate Answers(ring: Ring, tx: Packet, dummy: Packet, lens: seq<nat>, idx: nat, polls: nat, polls2: nat)
    requires |ring.line| > 0
  {
    var y := ring.traffic(tx, dummy);
    && AllSound(y.primary, lens) && AllSound(y.secondary, lens) && SoundReaction(y.react, lens)
    && |y.primary| <= polls && |y.secondary| <= polls && (forall q :: polls2 >= |y.secondary| + |y.react.events(q)|)
    && RingReacts(ring.line, ring.broken, y.primary, y.secondary, idx, tx, dummy, y.react)
  }

  lemma {:induction false} ArrivalsValid(s: StackState, lens: seq<nat>, arrivals: seq<Option<Packet>>)
    requires Valid(s.(arrivals := []), lens) && AllSound(arrivals, lens)
    ensures Valid(s.(arrivals := arrivals), lens)
  {
    hide Sound;
  }

  lemma {:induction false} SentKeepsValid(s: StackState, lens: seq<nat>, idx: nat)
    requires Valid(s, lens) && idx < EC_MAXBUF
    ensures Valid(s.(rxbufstat := s.rxbufstat[idx := EC_BUF_TX]), lens)
  {
    hide Sound;
  }

  lemma {:induction false} PairIsHealed(
    ring: Ring, p: StackState, s: StackState, lens: seq<nat>, idx: nat, tx: Packet, dummy: Packet,
    polls: nat, polls2: nat)
    requires SentPair(tx, dummy, lens, idx) && Behaves(ring, lens, idx, polls, polls2) && idx < EC_MAXBUF
    requires Valid(p.(arrivals := []), lens) && Valid(s.(arrivals := []), lens)
    requires p.rxbufstat[idx] == EC_BUF_TX && s.rxbufstat[idx] == EC_BUF_TX
    ensures var y := ring.traffic(tx, dummy);
            var p1, s1 := p.(arrivals := y.primary), s.(arrivals := y.secondary);
            && Valid(p1, lens) && Valid(s1, lens) && SoundReaction(y.react, lens) && 18 <= |tx| <= EC_BUFSIZE
            && Whole(AwaitRed(p1, s1, lens, idx, tx, y.react, polls, polls2), lens, idx,
                     Traverse(ring.line, 0, |ring.line|, tx))
  {
    var y := ring.traffic(tx, dummy);
    assert Answers(ring, tx, dummy, lens, idx, polls, polls2);
    ArrivalsValid(p, lens, y.primary);
    ArrivalsValid(s, lens, y.secondary);
    hide Valid;
    hide RingReacts;
    hide AwaitRed;
    hide Whole;
    hide SoundReaction;
    hide AllSound;
    hide Traverse;
    hide WkcPos;
    OneBreakIsHealed(ring.line, ring.broken, p.(arrivals := y.primary), s.(arrivals := y.secondary), lens, idx,
                     tx, dummy, y.react, polls, polls2);
  }

  /** The receive buffer holds the frame, without its Ethernet header, and the working counter is
      the one at its end. */
  ghost predicate Brought(rx: seq<byte>, wkc: int, whole: Packet) {
    && 18 <= |whole| <= EC_BUFSIZE == |rx| && rx[..|whole| - ETH_HEADERSIZE] == whole[ETH_HEADERSIZE..]
    && WkcPos(whole[14..]) + 16 <= |whole| && wkc == LastWkc(whole[14..]) as int
  }

  /** Frame `idx` and the dummy are ready to be sent, and the receive buffers are sound. */
  ghost predicate Loaded(port: RedundantPort, idx: nat, txbuflength2: nat)
    reads port, port.txbuf, port.txbuf2, port.txbuflength
    reads port.primary, port.primary.rxbuf, port.primary.rxbufstat, port.primary.rxsa
    reads port.secondary, port.secondary.rxbuf, port.secondary.rxbufstat, port.secondary.rxsa
  {
    && port.Apart() && idx < EC_MAXBUF && port.txbuf[idx].Length == port.txbuf2.Length == EC_BUFSIZE
    && 18 <= port.txbuflength[idx] <= EC_BUFSIZE && 18 <= txbuflength2 <= EC_BUFSIZE
    && port.txbuf[idx][12] == 0x88 && port.txbuf[idx][13] == 0xa4 && port.txbuf[idx][17] as int == idx
    && port.txbuf2[12] == 0x88 && port.txbuf2[13] == 0xa4
    && WkcPos(port.txbuf[idx][14..port.txbuflength[idx]]) + 16 <= port.txbuflength[idx]
    && WkcPos(port.txbuf2[14..txbuflength2]) + 16 <= txbuflength2
    && Valid(port.primary.View().(arrivals := []), port.txbuflength[..])
    && Valid(port.secondary.View().(arrivals := []), port.txbuflength[..])
  }

  /** Sends the frame and the dummy; both buffers wait. */
  method SendPair(port: RedundantPort, idx: nat, txbuflength2: nat) returns (tx: Packet, dummy: Packet)
    requires Loaded(port, idx, txbuflength2)
    modifies port.txbuf[idx], port.txbuf2, port.primary`sent, port.primary.rxbufstat
    modifies port.secondary`sent, port.secondary.rxbufstat
    ensures SentPair(tx, dummy, port.txbuflength[..], idx) && port.txbuf[idx][..port.txbuflength[idx]] == tx
    ensures tx == MarkedAs(old(port.txbuf[idx][..port.txbuflength[idx]]), 0x01)
    ensures port.primary.sent == old(port.primary.sent) + [tx]
    ensures port.secondary.sent == old(port.secondary.sent) + [dummy]
    ensures port.primary.rxbufstat[idx] == port.secondary.rxbufstat[idx] == EC_BUF_TX
    ensures Valid(port.primary.View().(arrivals := []), port.txbuflength[..])
    ensures Valid(port.secondary.View().(arrivals := []), port.txbuflength[..])
  {
    hide Valid;
    hide WkcPos;
    hide HasIndex;
    var n := port.txbuflength[idx];
    ghost var lens := port.txbuflength[..];
    MarkedKeepsLength(port.txbuf[idx][..n], port.txbuf[idx][14..n], 0x01);
    MarkedKeepsLength(port.txbuf2[..txbuflength2][17 := idx as byte], port.txbuf2[14..txbuflength2], 0x04);
    SentKeepsValid(port.primary.View().(arrivals := []), lens, idx);
    SentKeepsValid(port.secondary.View().(arrivals := []), lens, idx);
    port.OutFrameRed(idx, txbuflength2);
    tx := port.primary.sent[|port.primary.sent| - 1];
    dummy := port.secondary.sent[|port.secondary.sent| - 1];
  }

  /** Sends frame `idx` and waits for it. Whether all cables are whole or any one is broken, the
      receive buffer of the primary port then holds the frame as one traversal of all slaves in
      standard order leaves it, and its working counter is returned. */
  method Exchange(port: RedundantPort, idx: nat, txbuflength2: nat, ring: Ring, polls: nat, polls2: nat)
      returns (wkc: int, tx: Packet)
    requires Loaded(port, idx, txbuflength2) && Behaves(ring, port.txbuflength[..], idx, polls, polls2)
    modifies port.txbuf[idx], port.txbuf2
    modifies port.primary, port.primary.rxbuf, port.primary.rxbufstat, port.primary.rxsa
    modifies port.secondary, port.secondary.rxbuf, port.secondary.rxbufstat, port.secondary.rxsa
    ensures port.primary.sent == old(port.primary.sent) + [tx]
    ensures tx == MarkedAs(old(port.txbuf[idx][..port.txbuflength[idx]]), 0x01)
    ensures Brought(port.primary.rxbuf[idx], wkc, Traverse(ring.line, 0, |ring.line|, tx))
  {
    ghost var lens := port.txbuflength[..];
    assert |ring.line| > 0 by { hide Loaded; }
    hide Valid;
    hide Behaves;
    hide Whole;
    hide WkcPos;
    hide Traverse;
    hide AwaitRed;
    var dummy;
    tx, dummy := SendPair(port, idx, txbuflength2);
    ghost var whole := Traverse(ring.line, 0, |ring.line|, tx);
    var traffic := ring.traffic(tx, dummy);
    PairIsHealed(ring, port.primary.View(), port.secondary.View(), lens, idx, tx, dummy, polls, polls2);
    hide *;
    wkc := ReceivePair(port, idx, tx, traffic, polls, polls2, whole);
  }

  /** Receives what the sockets yield. */
  method ReceivePair(
    port: RedundantPort, idx: nat, tx: Packet, traffic: Traffic, polls: nat, polls2: nat, ghost whole: Packet)
      returns (wkc: int)
    requires port.Apart() && idx < EC_MAXBUF && port.txbuf[idx].Length == EC_BUFSIZE
    requires 18 <= |tx| == port.txbuflength[idx] <= EC_BUFSIZE && port.txbuf[idx][..|tx|] == tx
    requires var lens, p, s := port.txbuflength[..], port.primary.View(), port.secondary.View();
             var p1, s1 := p.(arrivals := traffic.primary), s.(arrivals := traffic.secondary);
             && Valid(p1, lens) && Valid(s1, lens) && SoundReaction(traffic.react, lens)
             && Whole(AwaitRed(p1, s1, lens, idx, tx, traffic.react, polls, polls2), lens, idx, whole)
    modifies port.txbuf[idx]
    modifies port.primary, port.primary.rxbuf, port.primary.rxbufstat, port.primary.rxsa
    modifies port.secondary, port.secondary.rxbuf, port.secondary.rxbufstat, port.secondary.rxsa
    ensures port.primary.sent == old(port.primary.sent)
    ensures Brought(port.primary.rxbuf[idx], wkc, whole)
  {
    hide Valid;
    hide Whole;
    hide WkcPos;
    hide AwaitRed;
    hide SoundReaction;
    ghost var lens := port.txbuflength[..];
    port.primary.arrivals := traffic.primary;
    port.secondary.arrivals := traffic.secondary;
    wkc := port.WaitInFrameRed(idx, polls, traffic.react, polls2);
    WholeParts(Outcome(port.primary.View(), port.secondary.View(), port.txbuf[idx][..lens[idx]], wkc),
               lens, idx, whole);
  }

  lemma {:induction false} WholeParts(r: Outcome, lens: seq<nat>, idx: nat, whole: Packet)
    requires Whole(r, lens, idx, whole)
    ensures idx < |r.primary.rxbuf| && Brought(r.primary.rxbuf[idx], r.wkc, whole)
  {
  }

  /** Marks and index do not touch the length field. */
  lemma {:induction false} MarkedKeepsLength(q: Packet, body: seq<byte>, b: byte)
    requires |q| >= 18 && |body| == |q| - 14 && body[0] == q[14] && body[1] == q[15]
    ensures WkcPos(MarkedAs(q, b)[14..]) == WkcPos(body)
  {
    var m := MarkedAs(q, b);
    assert m[14..][0] == q[14] && m[14..][1] == q[15];
  }

  // Such rings exist

  ghost function TrafficOf(line: seq<Unit>, broken: Option<nat>, idx: nat, tx: Packet, dummy: Packet): Traffic
    requires |line| > 0
  {
    var first, second := SendPrimary(line, broken, tx), SendSecondary(line, broken, dummy);
    Traffic(Yielding(Either(AtPrimaryPort(first), AtPrimaryPort(second))),
            Yielding(Either(AtSecondaryPort(first), AtSecondaryPort(second))),
            ReactionOf(line, broken, tx, idx))
  }

  lemma {:induction false} TrafficAnswers(ring: Ring, tx: Packet, dummy: Packet, lens: seq<nat>, idx: nat)
    requires GoodLine(ring.line) && (ring.broken.Some? ==> ring.broken.value <= |ring.line|)
    requires SentPair(tx, dummy, lens, idx)
    requires ring.traffic(tx, dummy) == TrafficOf(ring.line, ring.broken, idx, tx, dummy)
    ensures Answers(ring, tx, dummy, lens, idx, 1, 2)
  {
    hide SendPrimary;
    hide SendSecondary;
    hide Exits;
    hide Brings;
    hide AllSound;
    hide SoundReaction;
    hide Resendable;
    hide ReactionOf;
    var line, broken := ring.line, ring.broken;
    var first, second := SendPrimary(line, broken, tx), SendSecondary(line, broken, dummy);
    PortsYield(line, broken, tx, idx, RX_PRIM);
    PortsYield(line, broken, dummy, idx, RX_SEC);
    YieldingBrings(Either(AtPrimaryPort(first), AtPrimaryPort(second)), lens, idx);
    YieldingBrings(Either(AtSecondaryPort(first), AtSecondaryPort(second)), lens, idx);
    LineReacts(line, broken, lens, idx, tx);
  }

  /** For every line of slaves and every break there is a ring that behaves as `Exchange` assumes. */
  lemma {:induction false} RingExists(
    line: seq<Unit>, broken: Option<nat>, lens: seq<nat>, idx: nat) returns (ring: Ring)
    requires GoodLine(line) && (broken.Some? ==> broken.value <= |line|)
    ensures ring.line == line && ring.broken == broken && Behaves(ring, lens, idx, 1, 2)
  {
    ring := Ring(line, broken, (tx, dummy) => TrafficOf(line, broken, idx, tx, dummy));
    forall tx, dummy | SentPair(tx, dummy, lens, idx) ensures Answers(ring, tx, dummy, lens, idx, 1, 2) {
      TrafficAnswers(ring, tx, dummy, lens, idx);
    }
    hide Answers;
    hide SentPair;
  }
}
