/** Redundant transmission (nicdrv.c): the frame goes out on the primary port and a dummy on the
    secondary one; what comes back where tells whether a cable is broken, and how to repair it. */
module Redundancy {
  import opened EcTypes
  import opened Datagram
  import opened Port
  import opened RingNetwork

  const RX_PRIM: nat := 0x0101
  const RX_SEC: nat := 0x0404

  /** Both sockets, the frame in the transmit buffer, and the working counter to return. */
  datatype Outcome = Outcome(primary: StackState, secondary: StackState, tx: Packet, wkc: int)

  /** Copies a received frame of `n` bytes from one socket's buffer to the other's. */
  function CopyFrame(dst: StackState, src: StackState, idx: nat, n: nat): StackState
    requires idx < |dst.rxbuf| && idx < |src.rxbuf| && n <= |src.rxbuf[idx]| && n <= |dst.rxbuf[idx]|
  {
    dst.(rxbuf := dst.rxbuf[idx := src.rxbuf[idx][..n] + dst.rxbuf[idx][n..]])
  }

  /** What sending a frame over the secondary port adds to what that socket yields. */
  datatype Reaction = Reaction(events: Packet -> seq<Option<Packet>>)

  ghost predicate SoundReaction(react: Reaction, lens: seq<nat>) {
    forall q :: AllSound(react.events(q), lens)
  }

  ghost predicate AllSound(events: seq<Option<Packet>>, lens: seq<nat>) {
    forall e :: 0 <= e < |events| && events[e].Some? ==> Sound(events[e].value, lens)
  }

  /** The frame with what was received in place of what was sent. */
  function Rewritten(tx: Packet, rx: seq<byte>): Packet
    requires |tx| >= ETH_HEADERSIZE && |tx| - ETH_HEADERSIZE <= |rx|
  {
    tx[..ETH_HEADERSIZE] + rx[..|tx| - ETH_HEADERSIZE]
  }

  /** The secondary socket once the frame is sent over it. */
  function Resent(s: StackState, idx: nat, tx: Packet, react: Reaction): StackState
    requires idx < |s.rxbufstat|
  {
    SetStat(s, idx, EC_BUF_TX).(arrivals := s.arrivals + react.events(tx))
  }

  lemma {:induction false} ResentIsValid(s: StackState, lens: seq<nat>, idx: nat, tx: Packet, react: Reaction)
    requires Valid(s, lens) && idx < EC_MAXBUF && SoundReaction(react, lens)
    ensures Valid(Resent(s, idx, tx, react), lens)
  {
    assert AllSound(react.events(tx), lens);
    var s' := Resent(s, idx, tx, react);
    hide Sound;
    forall e | 0 <= e < |s'.arrivals| && s'.arrivals[e].Some? ensures Sound(s'.arrivals[e].value, lens) {
      if e >= |s.arrivals| {
        assert s'.arrivals[e] == react.events(tx)[e - |s.arrivals|];
      }
    }
  }

  /** Decides by where frames came from; a source of 0 means that nothing came. */
  function Settle(p: StackState, wkc: int, s: StackState, wkc2: int, lens: seq<nat>, idx: nat, tx: Packet,
                  react: Reaction, polls: nat): (r: Outcome)
    requires Valid(p, lens) && Valid(s, lens) && SoundReaction(react, lens)
    requires idx < EC_MAXBUF && 18 <= lens[idx] == |tx| <= EC_BUFSIZE
  {
    var n := lens[idx] - ETH_HEADERSIZE;
    var primrx := if wkc > EC_NOFRAME then p.rxsa[idx] else 0;
    var secrx := if wkc2 > EC_NOFRAME then s.rxsa[idx] else 0;
    if primrx == RX_SEC && secrx == RX_PRIM then
      // both frames went all the way round
      Outcome(CopyFrame(p, s, idx, n), s, tx, wkc2)
    else if (primrx == 0 || primrx == RX_PRIM) && secrx == RX_SEC then
      // what the primary frame has become, or else the frame itself, goes out on the other side
      var tx' := if primrx == RX_PRIM then Rewritten(tx, p.rxbuf[idx]) else tx;
      ResentIsValid(s, lens, idx, tx', react);
      var (s', w) := Await(Resent(s, idx, tx', react), lens, idx, polls);
      if w > EC_NOFRAME then Outcome(CopyFrame(p, s', idx, n), s', tx', w) else Outcome(p, s', tx', wkc)
    else
      Outcome(p, s, tx, wkc)
  }

  /** Waits for both frames and settles what they mean. */
  function AwaitRed(p: StackState, s: StackState, lens: seq<nat>, idx: nat, tx: Packet, react: Reaction,
                    polls: nat, polls2: nat): (r: Outcome)
    requires Valid(p, lens) && Valid(s, lens) && SoundReaction(react, lens)
    requires idx < EC_MAXBUF && 18 <= lens[idx] == |tx| <= EC_BUFSIZE
  {
    var (p', wkc) := Await(p, lens, idx, polls);
    var (s', wkc2) := Await(s, lens, idx, polls);
    Settle(p', wkc, s', wkc2, lens, idx, tx, react, polls2)
  }

  // What the sockets yield

  /** The temporary buffer when the packet has been read into it; the rest of it is stale. */
  ghost predicate InBuffer(t: Packet, q: Packet) {
    |q| <= |t| == EC_BUFSIZE && t[..|q|] == q
  }

  /** The attempt number `e`, and no other, yields a packet with index `idx`: `t`. */
  ghost predicate Once(arrivals: seq<Option<Packet>>, idx: nat, e: nat, t: Packet) {
    && e < |arrivals| && arrivals[e] == Some(t)
    && forall k :: 0 <= k < |arrivals| && k != e && arrivals[k].Some? ==> !HasIndex(arrivals[k].value, idx)
  }

  /** Of packets with index `idx`, the socket yields exactly `q`, or none; of others, any. */
  ghost predicate Brings(arrivals: seq<Option<Packet>>, idx: nat, q: Option<Packet>) {
    match q
    case None => forall e :: 0 <= e < |arrivals| && arrivals[e].Some? ==> !HasIndex(arrivals[e].value, idx)
    case Some(q) => exists e, t :: Once(arrivals, idx, e, t) && InBuffer(t, q)
  }

  function AtPrimaryPort(exit: Exit): Option<Packet> {
    match exit
    case AtPrimary(p) => Some(p)
    case _ => None
  }

  function AtSecondaryPort(exit: Exit): Option<Packet> {
    match exit
    case AtSecondary(p) => Some(p)
    case _ => None
  }

  function Either(a: Option<Packet>, b: Option<Packet>): Option<Packet> {
    if a.Some? then a else b
  }

  lemma {:induction false} NothingComes(s: StackState, lens: seq<nat>, idx: nat, polls: nat)
    requires Valid(s, lens) && idx < EC_MAXBUF && s.rxbufstat[idx] == EC_BUF_TX && Brings(s.arrivals, idx, None)
    ensures var (s', wkc) := Await(s, lens, idx, polls);
            wkc <= EC_NOFRAME && s'.rxbufstat[idx] == EC_BUF_TX && Brings(s'.arrivals, idx, None)
    decreases polls
  {
    var (s1, wkc) := Fetch(s, lens, idx);
    assert s1.rxbufstat[idx] == EC_BUF_TX && wkc <= EC_NOFRAME && Brings(s1.arrivals, idx, None);
    hide Fetch;
    hide Valid;
    hide Brings;
    if polls > 0 {
      NothingComes(s1, lens, idx, polls - 1);
    }
  }

  lemma {:induction false} OnceStep(s: StackState, lens: seq<nat>, idx: nat, e: nat, t: Packet)
    requires Valid(s, lens) && Answer(t, lens, idx) && s.rxbufstat[idx] == EC_BUF_TX && Once(s.arrivals, idx, e, t)
    ensures var (s1, wkc) := Fetch(s, lens, idx);
            && s1.arrivals == s.arrivals[1..]
            && if e == 0 then wkc > EC_NOFRAME && HasWkc(t, lens, idx, wkc) && Filled(s1, lens, idx, t)
               else wkc <= EC_NOFRAME && s1.rxbufstat[idx] == EC_BUF_TX && Once(s1.arrivals, idx, e - 1, t)
  {
    if e == 0 {
      StoredHolds(s.rxbuf[idx], t, lens[idx]);
      if WkcPos(t[14..]) + 16 <= lens[idx] {
        SameWkc(Stored(s.rxbuf[idx], t, lens[idx]), t, lens[idx]);
      }
    } else {
      assert s.arrivals[0].Some? ==> !HasIndex(s.arrivals[0].value, idx);
    }
  }

  lemma {:induction false} DropTwice(a: seq<Option<Packet>>, e: nat)
    requires e < |a|
    ensures a[1..][e..] == a[e + 1..]
  {
  }

  lemma {:induction false} OnceComes(s: StackState, lens: seq<nat>, idx: nat, e: nat, t: Packet, polls: nat)
    requires Valid(s, lens) && Answer(t, lens, idx) && s.rxbufstat[idx] == EC_BUF_TX && Once(s.arrivals, idx, e, t)
    requires polls >= e
    ensures var (s', wkc) := Await(s, lens, idx, polls);
            && wkc > EC_NOFRAME && HasWkc(t, lens, idx, wkc) && Filled(s', lens, idx, t)
            && s'.arrivals == s.arrivals[e + 1..]
    decreases e
  {
    hide Fetch;
    hide Valid;
    hide Answer;
    hide HasWkc;
    hide Filled;
    hide Once;
    hide Await;
    OnceBounds(s.arrivals, lens, idx, e, t);
    OnceStep(s, lens, idx, e, t);
    AwaitStep(s, lens, idx, polls);
    if e > 0 {
      OnceComes(Fetch(s, lens, idx).0, lens, idx, e - 1, t, polls - 1);
      DropTwice(s.arrivals, e);
    }
  }

  lemma {:induction false} OnceBounds(arrivals: seq<Option<Packet>>, lens: seq<nat>, idx: nat, e: nat, t: Packet)
    requires Answer(t, lens, idx) && Once(arrivals, idx, e, t)
    ensures idx < EC_MAXBUF && e < |arrivals|
  {
  }

  lemma {:induction false} AwaitStep(s: StackState, lens: seq<nat>, idx: nat, polls: nat)
    requires Valid(s, lens) && idx < EC_MAXBUF
    ensures var (s1, wkc) := Fetch(s, lens, idx);
            Await(s, lens, idx, polls)
            == if wkc > EC_NOFRAME || polls == 0 then (s1, wkc) else Await(s1, lens, idx, polls - 1)
  {
    hide Fetch;
    hide Valid;
  }

  /** What is in the buffer when packet `q` came; `q` may be shorter than the frame. */
  lemma {:induction false} PacketComes(s: StackState, lens: seq<nat>, idx: nat, q: Packet, polls: nat)
    requires Valid(s, lens) && idx < EC_MAXBUF && 18 <= lens[idx] <= EC_BUFSIZE && s.rxbufstat[idx] == EC_BUF_TX
    requires 18 <= |q| <= EC_BUFSIZE && HasIndex(q, idx) && Brings(s.arrivals, idx, Some(q)) && polls >= |s.arrivals|
    ensures var (s', wkc) := Await(s, lens, idx, polls);
            && wkc > EC_NOFRAME && s'.rxsa[idx] == SourceOf(q) && Brings(s'.arrivals, idx, None)
               && |s'.arrivals| <= |s.arrivals|
            && (|q| == lens[idx] ==> s'.rxbuf[idx][..lens[idx] - ETH_HEADERSIZE] == q[ETH_HEADERSIZE..])
            && (|q| == lens[idx] && WkcPos(q[14..]) + 16 <= |q| ==> wkc == LastWkc(q[14..]) as int)
  {
    var e, t :| Once(s.arrivals, idx, e, t) && InBuffer(t, q);
    BufferedPacket(t, q);
    assert Sound(t, lens);
    assert Brings(s.arrivals[e + 1..], idx, None);
    hide Once;
    hide Sound;
    hide Brings;
    OnceComes(s, lens, idx, e, t, polls);
    hide Valid;
    hide Await;
  }

  lemma {:induction false} BufferedPacket(t: Packet, q: Packet)
    requires InBuffer(t, q) && |q| >= 18
    ensures t[8] == q[8] && t[9] == q[9] && t[12] == q[12] && t[13] == q[13] && t[17] == q[17]
    ensures WkcPos(t[14..]) == WkcPos(q[14..])
    ensures WkcPos(q[14..]) + 16 <= |q| ==> LastWkc(t[14..]) == LastWkc(q[14..])
    ensures t[14..|q|] == q[14..]
  {
    forall i | 0 <= i < |q| ensures t[i] == q[i] {
      assert t[..|q|][i] == q[i];
    }
    assert t[14..][0] == q[14..][0] && t[14..][1] == q[14..][1];
    var l := WkcPos(q[14..]);
    if l + 16 <= |q| {
      assert t[14..][l] == q[14..][l] && t[14..][l + 1] == q[14..][l + 1];
    }
  }

  // One redundant transmission

  /** The frame with the word of the source address that tells the port. */
  function MarkedAs(q: Packet, b: byte): (r: Packet)
    requires |q| >= 18
    ensures |r| == |q|
  {
    q[8 := b][9 := b]
  }

  /** A frame of the master: long enough for its own headers, and marked with the port it leaves. */
  ghost predicate Marked(q: Packet, idx: nat, source: nat) {
    18 <= |q| <= EC_BUFSIZE && HasIndex(q, idx) && SourceOf(q) == source
  }

  /** The primary socket holds the frame as all slaves in standard order have left it. */
  ghost predicate Whole(r: Outcome, lens: seq<nat>, idx: nat, whole: Packet) {
    && idx < |lens| && idx < |r.primary.rxbuf| && |whole| == lens[idx] >= 18
    && WkcPos(whole[14..]) + 16 <= |whole| && r.wkc == LastWkc(whole[14..]) as int
    && |r.primary.rxbuf[idx]| == EC_BUFSIZE && lens[idx] <= EC_BUFSIZE
    && r.primary.rxbuf[idx][..lens[idx] - ETH_HEADERSIZE] == whole[ETH_HEADERSIZE..]
  }

  lemma {:induction false} SameMarks(q: Packet, r: Packet, idx: nat, source: nat)
    requires Marked(q, idx, source) && |r| == |q| && r[..18] == q[..18]
    ensures Marked(r, idx, source) && WkcPos(r[14..]) == WkcPos(q[14..]) && r[..14] == q[..14]
  {
    forall i | 0 <= i < 18 ensures r[i] == q[i] {
      assert r[..18][i] == q[..18][i];
    }
    assert r[14..][0] == q[14..][0] && r[14..][1] == q[14..][1];
  }

  /** Slaves do not touch what marks a frame. */
  lemma {:induction false} TraverseStaysMarked(line: seq<Unit>, lo: nat, hi: nat, q: Packet, idx: nat, source: nat)
    requires GoodLine(line) && lo <= hi <= |line| && Marked(q, idx, source)
    ensures var r := Traverse(line, lo, hi, q);
            Marked(r, idx, source) && |r| == |q| && WkcPos(r[14..]) == WkcPos(q[14..]) && r[..14] == q[..14]
  {
    TraverseKeeps(line, lo, hi, q);
    SameMarks(q, Traverse(line, lo, hi, q), idx, source);
    hide Traverse;
    hide GoodLine;
    hide WkcPos;
  }

  // The possible outcomes, one for each place of the break

  /** Both cables whole: the primary frame comes out at the secondary port. */
  lemma {:induction false} SettleWhole(
    p: StackState, s: StackState, lens: seq<nat>, idx: nat, tx: Packet, react: Reaction, polls: nat, polls2: nat,
    whole: Packet, dummy: Packet)
    requires Ready(p, s, lens, idx, tx, react, polls)
    requires Marked(whole, idx, RX_PRIM) && |whole| == lens[idx] && WkcPos(whole[14..]) + 16 <= |whole|
    requires Marked(dummy, idx, RX_SEC)
    requires Brings(p.arrivals, idx, Some(dummy)) && Brings(s.arrivals, idx, Some(whole))
    ensures Whole(AwaitRed(p, s, lens, idx, tx, react, polls, polls2), lens, idx, whole)
  {
    PacketComes(p, lens, idx, dummy, polls);
    PacketComes(s, lens, idx, whole, polls);
    hide Await;
    hide Brings;
    hide HasIndex;
  }

  /** Only the primary frame comes back, after all slaves: nothing needs to be done. */
  lemma {:induction false} SettleEnd(
    p: StackState, s: StackState, lens: seq<nat>, idx: nat, tx: Packet, react: Reaction, polls: nat, polls2: nat,
    whole: Packet)
    requires Ready(p, s, lens, idx, tx, react, polls)
    requires Marked(whole, idx, RX_PRIM) && |whole| == lens[idx] && WkcPos(whole[14..]) + 16 <= |whole|
    requires Brings(p.arrivals, idx, Some(whole)) && Brings(s.arrivals, idx, None)
    ensures Whole(AwaitRed(p, s, lens, idx, tx, react, polls, polls2), lens, idx, whole)
  {
    PacketComes(p, lens, idx, whole, polls);
    NothingComes(s, lens, idx, polls);
    hide Await;
    hide Brings;
    hide HasIndex;
  }

  ghost predicate Ready(
    p: StackState, s: StackState, lens: seq<nat>, idx: nat, tx: Packet, react: Reaction, polls: nat)
  {
    && Valid(p, lens) && Valid(s, lens) && SoundReaction(react, lens) && idx < EC_MAXBUF
    && p.rxbufstat[idx] == EC_BUF_TX && s.rxbufstat[idx] == EC_BUF_TX
    && Marked(tx, idx, RX_PRIM) && lens[idx] == |tx| && polls >= |p.arrivals| && polls >= |s.arrivals|
  }

  /** The dummy comes back at the secondary port: `again` goes out there, and comes back whole. */
  lemma {:induction false} SettleAgain(
    p: StackState, s: StackState, lens: seq<nat>, idx: nat, tx: Packet, react: Reaction, polls: nat, polls2: nat,
    part: Option<Packet>, dummy: Packet, again: Packet, whole: Packet)
    requires Ready(p, s, lens, idx, tx, react, polls)
    requires Marked(dummy, idx, RX_SEC) && Brings(s.arrivals, idx, Some(dummy)) && Brings(p.arrivals, idx, part)
    requires part.Some? ==>
      Marked(part.value, idx, RX_PRIM) && |part.value| == |tx| && again == Rewritten(tx, part.value[14..])
    requires part.None? ==> again == tx
    requires Marked(whole, idx, RX_PRIM) && |whole| == lens[idx] && WkcPos(whole[14..]) + 16 <= |whole|
    requires Brings(react.events(again), idx, Some(whole)) && polls2 >= |s.arrivals| + |react.events(again)|
    ensures Whole(AwaitRed(p, s, lens, idx, tx, react, polls, polls2), lens, idx, whole)
  {
    hide Await;
    hide Brings;
    hide HasIndex;
    hide Sound;
    hide Settle;
    hide Whole;
    hide Rewritten;
    hide SoundReaction;
    PacketComes(s, lens, idx, dummy, polls);
    if part.Some? {
      PacketComes(p, lens, idx, part.value, polls);
      SameRewrite(tx, Await(p, lens, idx, polls).0.rxbuf[idx], part.value);
    } else {
      NothingComes(p, lens, idx, polls);
    }
    var (p1, wkc) := Await(p, lens, idx, polls);
    var (s1, wkc2) := Await(s, lens, idx, polls);
    SettleResends(p1, wkc, s1, wkc2, lens, idx, tx, react, polls2, again, whole);
  }

  lemma {:induction false} SameRewrite(tx: Packet, rx: seq<byte>, part: Packet)
    requires |part| == |tx| >= 18 && |rx| == EC_BUFSIZE >= |tx| && rx[..|tx| - ETH_HEADERSIZE] == part[ETH_HEADERSIZE..]
    ensures Rewritten(tx, rx) == Rewritten(tx, part[ETH_HEADERSIZE..])
  {
  }

  lemma {:induction false} ResentParts(s: StackState, lens: seq<nat>, idx: nat, tx: Packet, react: Reaction)
    requires Valid(s, lens) && idx < EC_MAXBUF
    ensures var s2 := Resent(s, idx, tx, react);
            s2.arrivals == s.arrivals + react.events(tx) && |s2.rxbufstat| == EC_MAXBUF
              && s2.rxbufstat[idx] == EC_BUF_TX
  {
    hide Sound;
  }

  lemma {:induction false} SettleResends(
    p: StackState, wkc: int, s: StackState, wkc2: int, lens: seq<nat>, idx: nat, tx: Packet, react: Reaction,
    polls: nat, again: Packet, whole: Packet)
    requires Valid(p, lens) && Valid(s, lens) && SoundReaction(react, lens)
    requires idx < EC_MAXBUF && 18 <= lens[idx] == |tx| <= EC_BUFSIZE
    requires wkc2 > EC_NOFRAME && s.rxsa[idx] == RX_SEC && Brings(s.arrivals, idx, None)
    requires if wkc > EC_NOFRAME then p.rxsa[idx] == RX_PRIM && again == Rewritten(tx, p.rxbuf[idx]) else again == tx
    requires Marked(whole, idx, RX_PRIM) && |whole| == lens[idx] && WkcPos(whole[14..]) + 16 <= |whole|
    requires Brings(react.events(again), idx, Some(whole)) && polls >= |s.arrivals| + |react.events(again)|
    ensures Whole(Settle(p, wkc, s, wkc2, lens, idx, tx, react, polls), lens, idx, whole)
  {
    hide SoundReaction;
    hide Brings;
    hide Await;
    hide HasIndex;
    hide Sound;
    hide WkcPos;
    BringsMore(s.arrivals, react.events(again), idx, whole);
    ResentIsValid(s, lens, idx, again, react);
    ResentParts(s, lens, idx, again, react);
    var s2 := Resent(s, idx, again, react);
    hide Resent;
    PacketComes(s2, lens, idx, whole, polls);
  }

  lemma {:induction false} BringsMore(a: seq<Option<Packet>>, b: seq<Option<Packet>>, idx: nat, q: Packet)
    requires Brings(a, idx, None) && Brings(b, idx, Some(q))
    ensures Brings(a + b, idx, Some(q))
  {
    var e, t :| Once(b, idx, e, t) && InBuffer(t, q);
    assert Once(a + b, idx, |a| + e, t);
  }

  /** What the master may send again instead of `tx`: its frame, as some slaves have left it. */
  ghost predicate Resendable(q: Packet, tx: Packet, idx: nat) {
    Marked(q, idx, RX_PRIM) && |q| == |tx| >= 18 && WkcPos(q[14..]) == WkcPos(tx[14..])
  }

  /** Both sockets and the resend behave as the line of slaves with its broken cable does. */
  ghost predicate RingReacts(line: seq<Unit>, broken: Option<nat>, p: seq<Option<Packet>>, s: seq<Option<Packet>>,
                             idx: nat, tx: Packet, dummy: Packet, react: Reaction)
    requires |line| > 0
  {
    var first, second := SendPrimary(line, broken, tx), SendSecondary(line, broken, dummy);
    && Brings(p, idx, Either(AtPrimaryPort(first), AtPrimaryPort(second)))
    && Brings(s, idx, Either(AtSecondaryPort(first), AtSecondaryPort(second)))
    && forall q {:trigger react.events(q)} :: Resendable(q, tx, idx) ==>
         Brings(react.events(q), idx, AtSecondaryPort(SendSecondary(line, broken, q)))
  }

  lemma {:induction false} RewrittenIsPart(tx: Packet, part: Packet)
    requires |part| == |tx| >= 18 && part[..14] == tx[..14]
    ensures Rewritten(tx, part[14..]) == part
  {
    assert part == part[..14] + part[14..];
  }

  /** The frame is processed in two parts, by the slaves on either side of the broken cable. */
  lemma {:induction false} AgainJoins(line: seq<Unit>, k: nat, tx: Packet, idx: nat)
    requires GoodLine(line) && k <= |line| && Marked(tx, idx, RX_PRIM)
    ensures var part := Traverse(line, 0, k, tx);
            && Marked(part, idx, RX_PRIM) && |part| == |tx| && Rewritten(tx, part[14..]) == part
            && Traverse(line, k, |line|, part) == Traverse(line, 0, |line|, tx)
  {
    TraverseStaysMarked(line, 0, k, tx, idx, RX_PRIM);
    TraverseJoins(line, k, |line|, tx);
    RewrittenIsPart(tx, Traverse(line, 0, k, tx));
    hide *;
  }

  /** The state of the sockets, for each place of the break, in terms of traversals. */
  lemma {:induction false} RingBrings(line: seq<Unit>, broken: Option<nat>, p: StackState, s: StackState, idx: nat,
                                      tx: Packet, dummy: Packet, react: Reaction)
    requires |line| > 0 && (broken.Some? ==> broken.value <= |line|)
    requires RingReacts(line, broken, p.arrivals, s.arrivals, idx, tx, dummy, react)
    ensures var n := |line|;
            match broken
            case None =>
              Brings(p.arrivals, idx, Some(dummy)) && Brings(s.arrivals, idx, Some(Traverse(line, 0, n, tx)))
            case Some(k) =>
              && Brings(p.arrivals, idx, if k == 0 then None else Some(Traverse(line, 0, k, tx)))
              && Brings(s.arrivals, idx, if k == n then None else Some(Traverse(line, k, n, dummy)))
              && (k < n ==>
                    forall q {:trigger react.events(q)} :: Resendable(q, tx, idx) ==>
                      Brings(react.events(q), idx, Some(Traverse(line, k, n, q))))
  {
    RingExits(line, broken, tx);
    RingExits(line, broken, dummy);
    hide Brings;
    hide Traverse;
    if broken.Some? && broken.value < |line| {
      hide Resendable;
      forall q | Resendable(q, tx, idx)
        ensures Brings(react.events(q), idx, Some(Traverse(line, broken.value, |line|, q)))
      {
        RingExits(line, broken, q);
      }
    }
    hide SendPrimary;
    hide SendSecondary;
  }

  /** With every cable whole, or any one cable broken (those to the master included), the master
      gets the frame as one traversal of all slaves in standard order leaves it. */
  lemma {:induction false} OneBreakIsHealed(
    line: seq<Unit>, broken: Option<nat>, p: StackState, s: StackState, lens: seq<nat>, idx: nat,
    tx: Packet, dummy: Packet, react: Reaction, polls: nat, polls2: nat)
    requires GoodLine(line) && (broken.Some? ==> broken.value <= |line|)
    requires Ready(p, s, lens, idx, tx, react, polls) && WkcPos(tx[14..]) + 16 <= |tx| && Marked(dummy, idx, RX_SEC)
    requires RingReacts(line, broken, p.arrivals, s.arrivals, idx, tx, dummy, react)
    requires forall q :: polls2 >= |s.arrivals| + |react.events(q)|
    ensures Whole(AwaitRed(p, s, lens, idx, tx, react, polls, polls2), lens, idx, Traverse(line, 0, |line|, tx))
  {
    var n := |line|;
    var whole := Traverse(line, 0, n, tx);
    TraverseStaysMarked(line, 0, n, tx, idx, RX_PRIM);
    RingBrings(line, broken, p, s, idx, tx, dummy, react);
    if broken.None? {
      hide *;
      SettleWhole(p, s, lens, idx, tx, react, polls, polls2, whole, dummy);
    } else if broken.value == n {
      hide *;
      SettleEnd(p, s, lens, idx, tx, react, polls, polls2, whole);
    } else {
      HealAgain(line, broken.value, p, s, lens, idx, tx, dummy, react, polls, polls2);
      hide *;
    }
  }

  lemma {:induction false} HealAgain(
    line: seq<Unit>, k: nat, p: StackState, s: StackState, lens: seq<nat>, idx: nat,
    tx: Packet, dummy: Packet, react: Reaction, polls: nat, polls2: nat)
    requires GoodLine(line) && k < |line| && Ready(p, s, lens, idx, tx, react, polls)
    requires WkcPos(tx[14..]) + 16 <= |tx| && Marked(dummy, idx, RX_SEC)
    requires Brings(p.arrivals, idx, if k == 0 then None else Some(Traverse(line, 0, k, tx)))
    requires Brings(s.arrivals, idx, Some(Traverse(line, k, |line|, dummy)))
    requires forall q {:trigger react.events(q)} :: Resendable(q, tx, idx) ==>
      Brings(react.events(q), idx, Some(Traverse(line, k, |line|, q)))
    requires forall q :: polls2 >= |s.arrivals| + |react.events(q)|
    ensures Whole(AwaitRed(p, s, lens, idx, tx, react, polls, polls2), lens, idx, Traverse(line, 0, |line|, tx))
  {
    var part := Traverse(line, 0, k, tx);
    TraverseStaysMarked(line, 0, |line|, tx, idx, RX_PRIM);
    TraverseStaysMarked(line, k, |line|, dummy, idx, RX_SEC);
    AgainJoins(line, k, tx, idx);
    assert k == 0 ==> part == tx;
    TraverseStaysMarked(line, 0, k, tx, idx, RX_PRIM);
    assert |Traverse(line, 0, |line|, tx)| == lens[idx] && Resendable(part, tx, idx);
    hide *;
    assert Brings(react.events(part), idx, Some(Traverse(line, k, |line|, part)));
    SettleAgain(p, s, lens, idx, tx, react, polls, polls2, if k == 0 then None else Some(part),
                Traverse(line, k, |line|, dummy), part, Traverse(line, 0, |line|, tx));
  }

  // Such sockets exist

  /** A packet in the temporary buffer, with zeros behind it. */
  function Buffered(q: Packet): (t: Packet)
    requires |q| <= EC_BUFSIZE
    ensures |t| == EC_BUFSIZE && t[..|q|] == q
  {
    q + seq(EC_BUFSIZE - |q|, i => 0 as byte)
  }

  /** A socket that yields the packet, if there is one, at the first attempt. */
  function Yielding(q: Option<Packet>): seq<Option<Packet>> {
    if q.Some? && |q.value| <= EC_BUFSIZE then [Some(Buffered(q.value))] else []
  }

  /** The packet exits as a frame with index `idx` that fits the buffer of the master. */
  ghost predicate Exits(q: Option<Packet>, idx: nat) {
    q.Some? ==> 18 <= |q.value| <= EC_BUFSIZE && HasIndex(q.value, idx) && WkcPos(q.value[14..]) + 2 <= EC_BUFSIZE
  }

  lemma {:induction false} YieldingBrings(q: Option<Packet>, lens: seq<nat>, idx: nat)
    requires Exits(q, idx) && idx < |lens| && 18 <= lens[idx] <= EC_BUFSIZE
    ensures Brings(Yielding(q), idx, q) && AllSound(Yielding(q), lens)
  {
    if q.Some? {
      var t := Buffered(q.value);
      BufferedPacket(t, q.value);
      assert Once(Yielding(q), idx, 0, t) && InBuffer(t, q.value);
    }
  }

  lemma {:induction false} TraverseExits(line: seq<Unit>, lo: nat, hi: nat, q: Packet, idx: nat, source: nat)
    requires GoodLine(line) && lo <= hi <= |line| && Marked(q, idx, source) && WkcPos(q[14..]) + 2 <= EC_BUFSIZE
    ensures Exits(Some(Traverse(line, lo, hi, q)), idx)
  {
    TraverseStaysMarked(line, lo, hi, q, idx, source);
    hide Traverse;
  }

  /** Whatever comes out of the line at a port fits the buffers of the master. */
  lemma {:induction false} PortsYield(line: seq<Unit>, broken: Option<nat>, q: Packet, idx: nat, source: nat)
    requires GoodLine(line) && (broken.Some? ==> broken.value <= |line|)
    requires Marked(q, idx, source) && WkcPos(q[14..]) + 2 <= EC_BUFSIZE
    ensures var first, second := SendPrimary(line, broken, q), SendSecondary(line, broken, q);
            && Exits(AtPrimaryPort(first), idx) && Exits(AtSecondaryPort(first), idx)
            && Exits(AtPrimaryPort(second), idx) && Exits(AtSecondaryPort(second), idx)
  {
    hide Traverse;
    hide SendPrimary;
    hide SendSecondary;
    hide Marked;
    hide WkcPos;
    RingExits(line, broken, q);
    assert Exits(None, idx);
    TraverseExits(line, 0, |line|, q, idx, source);
    TraverseExits(line, 0, 0, q, idx, source);
    assert Traverse(line, 0, 0, q) == q by { NotProcessed(line, 0, q); }
    if broken.Some? {
      TraverseExits(line, 0, broken.value, q, idx, source);
      TraverseExits(line, broken.value, |line|, q, idx, source);
    }
    hide Exits;
  }

  lemma {:induction false} NotProcessed(line: seq<Unit>, lo: nat, q: Packet)
    requires lo <= |line|
    ensures Traverse(line, lo, lo, q) == q
  {
  }

  /** How the line reacts to what is sent at the secondary port instead of `tx`. */
  ghost function ReactionOf(line: seq<Unit>, broken: Option<nat>, tx: Packet, idx: nat): Reaction
    requires |line| > 0
  {
    Reaction(q => if Resendable(q, tx, idx) then Yielding(AtSecondaryPort(SendSecondary(line, broken, q))) else [])
  }

  lemma {:induction false} LineReacts(line: seq<Unit>, broken: Option<nat>, lens: seq<nat>, idx: nat, tx: Packet)
    requires GoodLine(line) && (broken.Some? ==> broken.value <= |line|) && idx < |lens| && lens[idx] == |tx|
    requires Marked(tx, idx, RX_PRIM) && WkcPos(tx[14..]) + 16 <= |tx|
    ensures var react := ReactionOf(line, broken, tx, idx);
            && SoundReaction(react, lens) && (forall q :: |react.events(q)| <= 1)
            && forall q {:trigger react.events(q)} :: Resendable(q, tx, idx) ==>
                 Brings(react.events(q), idx, AtSecondaryPort(SendSecondary(line, broken, q)))
  {
    hide SendSecondary;
    hide Exits;
    hide Brings;
    var react := ReactionOf(line, broken, tx, idx);
    forall q
      ensures AllSound(react.events(q), lens)
      ensures Resendable(q, tx, idx) ==> Brings(react.events(q), idx, AtSecondaryPort(SendSecondary(line, broken, q)))
    {
      if Resendable(q, tx, idx) {
        PortsYield(line, broken, q, idx, RX_PRIM);
        YieldingBrings(AtSecondaryPort(SendSecondary(line, broken, q)), lens, idx);
        hide AllSound;
      }
    }
    hide AllSound;
    hide Resendable;
  }

  // The port

  /** A port with two sockets, which share the transmit buffers. */
  class RedundantPort {
    const primary: Stack
    const secondary: Stack
    const txbuf: seq<array<byte>>
    const txbuf2: array<byte>
    const txbuflength: array<nat>

    constructor (txbuf: seq<array<byte>>, txbuf2: array<byte>, txbuflength: array<nat>)
      ensures this.txbuf == txbuf && this.txbuf2 == txbuf2 && this.txbuflength == txbuflength
      ensures fresh(primary) && fresh(secondary) && primary != secondary
      ensures fresh(primary.rxbuf) && fresh(primary.rxbufstat) && fresh(primary.rxsa)
      ensures fresh(secondary.rxbuf) && fresh(secondary.rxbufstat) && fresh(secondary.rxsa)
    {
      primary := new Stack();
      secondary := new Stack();
      this.txbuf, this.txbuf2, this.txbuflength := txbuf, txbuf2, txbuflength;
    }

    ghost predicate Apart() {
      && primary != secondary && primary.Apart() && secondary.Apart() && primary.rxbuf != secondary.rxbuf
      && {primary.rxbufstat, primary.rxsa} !! {secondary.rxbufstat, secondary.rxsa}
      && txbuflength !in {primary.rxbufstat, primary.rxsa, secondary.rxbufstat, secondary.rxsa}
      && |txbuf| == txbuflength.Length == EC_MAXBUF && txbuf2 !in txbuf
    }

    /** Takes an empty buffer, on both ports. */
    method GetIndex(lastidx: nat) returns (idx: nat, ghost d: nat)
      requires Apart() && lastidx < EC_MAXBUF
      modifies primary.rxbufstat, secondary.rxbufstat
      ensures d <= EC_MAXBUF && idx == Around(lastidx + 1, d)
      ensures forall e :: 0 <= e < d ==> !IsFree(old(primary.rxbufstat[..]), lastidx, e)
      ensures d < EC_MAXBUF ==> IsFree(old(primary.rxbufstat[..]), lastidx, d)
      ensures primary.rxbufstat[..] == old(primary.rxbufstat[..])[idx := EC_BUF_ALLOC]
      ensures secondary.rxbufstat[..] == old(secondary.rxbufstat[..])[idx := EC_BUF_ALLOC]
    {
      hide Around;
      idx, d := Port.GetIndex(primary.rxbufstat, lastidx);
      secondary.rxbufstat[idx] := EC_BUF_ALLOC;
    }

    /** Sets the state of a buffer, on both ports. */
    method SetBufStat(idx: nat, bufstat: nat)
      requires Apart() && idx < EC_MAXBUF
      modifies primary.rxbufstat, secondary.rxbufstat
      ensures primary.rxbufstat[..] == old(primary.rxbufstat[..])[idx := bufstat]
      ensures secondary.rxbufstat[..] == old(secondary.rxbufstat[..])[idx := bufstat]
    {
      primary.rxbufstat[idx] := bufstat;
      secondary.rxbufstat[idx] := bufstat;
    }

    /** Sends frame `idx` on the primary port and the dummy on the secondary port, each marked
        with the port it leaves. */
    method OutFrameRed(idx: nat, txbuflength2: nat)
      requires Apart() && idx < EC_MAXBUF && txbuf[idx].Length == txbuf2.Length == EC_BUFSIZE
      requires 18 <= txbuflength[idx] <= EC_BUFSIZE && 18 <= txbuflength2 <= EC_BUFSIZE
      requires txbuf[idx][12] == 0x88 && txbuf[idx][13] == 0xa4 && txbuf[idx][17] as int == idx
      requires txbuf2[12] == 0x88 && txbuf2[13] == 0xa4
      modifies txbuf[idx], txbuf2, primary`sent, primary.rxbufstat, secondary`sent, secondary.rxbufstat
      ensures var tx := MarkedAs(old(txbuf[idx][..txbuflength[idx]]), 0x01);
              && Marked(tx, idx, RX_PRIM) && primary.sent == old(primary.sent) + [tx]
              && tx[8] == tx[9] == 1 && tx[17] as int == idx
              && txbuf[idx][..txbuflength[idx]] == tx
      ensures var dummy := MarkedAs(old(txbuf2[..txbuflength2])[17 := idx as byte], 0x04);
              && Marked(dummy, idx, RX_SEC) && secondary.sent == old(secondary.sent) + [dummy]
              && dummy[8] == dummy[9] == 4 && dummy[17] as int == idx
      ensures primary.rxbufstat[..] == old(primary.rxbufstat[..])[idx := EC_BUF_TX]
      ensures secondary.rxbufstat[..] == old(secondary.rxbufstat[..])[idx := EC_BUF_TX]
    {
      hide Valid;
      Mark(txbuf[idx], 0x01);
      primary.OutFrame(txbuf[idx][..txbuflength[idx]], idx);
      txbuf2[17] := idx as byte;
      Mark(txbuf2, 0x04);
      secondary.OutFrame(txbuf2[..txbuflength2], idx);
    }

    /** Waits until both frames are there or the time is over. */
    method WaitBoth(idx: nat, polls: nat) returns (wkc: int, wkc2: int)
      requires Apart() && idx < EC_MAXBUF
      requires Valid(primary.View(), txbuflength[..]) && Valid(secondary.View(), txbuflength[..])
      modifies primary`arrivals, primary.rxbuf, primary.rxbufstat, primary.rxsa
      modifies secondary`arrivals, secondary.rxbuf, secondary.rxbufstat, secondary.rxsa
      ensures (primary.View(), wkc) == Await(old(primary.View()), txbuflength[..], idx, polls)
      ensures (secondary.View(), wkc2) == Await(old(secondary.View()), txbuflength[..], idx, polls)
    {
      hide Fetch;
      hide Valid;
      ghost var lens, p, s := txbuflength[..], primary.View(), secondary.View();
      var left := polls;
      wkc := primary.InFrame(txbuflength, idx);
      wkc2 := secondary.InFrame(txbuflength, idx);
      while (wkc <= EC_NOFRAME || wkc2 <= EC_NOFRAME) && left > 0
        invariant txbuflength[..] == lens && Valid(primary.View(), lens) && Valid(secondary.View(), lens)
        invariant Await(p, lens, idx, polls) ==
                  if wkc > EC_NOFRAME || left == 0 then (primary.View(), wkc)
                  else Await(primary.View(), lens, idx, left - 1)
        invariant Await(s, lens, idx, polls) ==
                  if wkc2 > EC_NOFRAME || left == 0 then (secondary.View(), wkc2)
                  else Await(secondary.View(), lens, idx, left - 1)
        decreases left
      {
        left := left - 1;
        // only read a frame that is not in yet
        if wkc <= EC_NOFRAME {
          wkc := primary.InFrame(txbuflength, idx);
        }
        if wkc2 <= EC_NOFRAME {
          wkc2 := secondary.InFrame(txbuflength, idx);
        }
      }
    }

    method CopyToPrimary(idx: nat)
      requires Apart() && idx < EC_MAXBUF && ETH_HEADERSIZE <= txbuflength[idx] <= EC_BUFSIZE
      requires |primary.rxbuf[idx]| == |secondary.rxbuf[idx]| == EC_BUFSIZE
      modifies primary.rxbuf
      ensures primary.View() == CopyFrame(old(primary.View()), secondary.View(), idx, txbuflength[idx] - ETH_HEADERSIZE)
    {
      var n := txbuflength[idx] - ETH_HEADERSIZE;
      primary.rxbuf[idx] := secondary.rxbuf[idx][..n] + primary.rxbuf[idx][n..];
    }

    /** Waits for the frame and repairs it over the other port if a cable is broken. */
    method WaitInFrameRed(idx: nat, polls: nat, react: Reaction, polls2: nat) returns (wkc: int)
      requires Apart() && idx < EC_MAXBUF && txbuf[idx].Length == EC_BUFSIZE && 18 <= txbuflength[idx] <= EC_BUFSIZE
      requires Valid(primary.View(), txbuflength[..]) && Valid(secondary.View(), txbuflength[..])
      requires SoundReaction(react, txbuflength[..])
      modifies primary`arrivals, primary.rxbuf, primary.rxbufstat, primary.rxsa, txbuf[idx]
      modifies secondary`arrivals, secondary`sent, secondary.rxbuf, secondary.rxbufstat, secondary.rxsa
      ensures Outcome(primary.View(), secondary.View(), txbuf[idx][..txbuflength[idx]], wkc)
              == AwaitRed(old(primary.View()), old(secondary.View()), txbuflength[..], idx,
                          old(txbuf[idx][..txbuflength[idx]]), react, polls, polls2)
    {
      hide Await;
      hide Valid;
      var wkc2;
      wkc, wkc2 := WaitBoth(idx, polls);
      wkc := SettleFrames(idx, wkc, wkc2, react, polls2);
    }

    /** The decision tree over what came back where. */
    method SettleFrames(idx: nat, wkc0: int, wkc20: int, react: Reaction, polls: nat) returns (wkc: int)
      requires Apart() && idx < EC_MAXBUF && txbuf[idx].Length == EC_BUFSIZE && 18 <= txbuflength[idx] <= EC_BUFSIZE
      requires Valid(primary.View(), txbuflength[..]) && Valid(secondary.View(), txbuflength[..])
      requires SoundReaction(react, txbuflength[..])
      modifies primary.rxbuf, txbuf[idx]
      modifies secondary`arrivals, secondary`sent, secondary.rxbuf, secondary.rxbufstat, secondary.rxsa
      ensures Outcome(primary.View(), secondary.View(), txbuf[idx][..txbuflength[idx]], wkc)
              == Settle(old(primary.View()), wkc0, old(secondary.View()), wkc20, txbuflength[..], idx,
                        old(txbuf[idx][..txbuflength[idx]]), react, polls)
    {
      hide Await;
      hide SoundReaction;
      wkc := wkc0;
      var wkc2 := wkc20;
      var primrx, secrx := 0, 0;
      if wkc > EC_NOFRAME {
        primrx := primary.rxsa[idx];
      }
      if wkc2 > EC_NOFRAME {
        secrx := secondary.rxsa[idx];
      }
      if primrx == RX_SEC && secrx == RX_PRIM {
        CopyToPrimary(idx);
        wkc := wkc2;
      }
      if (primrx == 0 && secrx == RX_SEC) || (primrx == RX_PRIM && secrx == RX_SEC) {
        var n := txbuflength[idx];
        if primrx == RX_PRIM && secrx == RX_SEC {
          RewriteFrame(txbuf[idx], n, primary.rxbuf[idx]);
        }
        ghost var s, lens := secondary.View(), txbuflength[..];
        ResentIsValid(s, lens, idx, txbuf[idx][..n], react);
        secondary.OutFrame(txbuf[idx][..n], idx);
        secondary.arrivals := secondary.arrivals + react.events(txbuf[idx][..n]);
        assert secondary.View() == Resent(s, idx, txbuf[idx][..n], react);
        hide Resent;
        hide Valid;
        wkc2 := secondary.WaitInFrame(txbuflength, idx, polls);
        if wkc2 > EC_NOFRAME {
          CopyToPrimary(idx);
          wkc := wkc2;
        }
      }
    }
  }

  /** Writes the word of the source address that tells the port. */
  method Mark(frame: array<byte>, b: byte)
    requires frame.Length >= 18
    modifies frame
    ensures frame[..] == old(frame[..])[8 := b][9 := b]
  {
    frame[8], frame[9] := b, b;
  }

  method RewriteFrame(frame: array<byte>, length: nat, rx: seq<byte>)
    requires ETH_HEADERSIZE <= length <= frame.Length && length - ETH_HEADERSIZE <= |rx|
    modifies frame
    ensures frame[..length] == Rewritten(old(frame[..length]), rx)
  {
    Write(frame, ETH_HEADERSIZE, rx[..length - ETH_HEADERSIZE]);
  }
}
