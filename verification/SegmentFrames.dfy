/** The frames that carry the segments of the process image (ec_main.c): what is on its way, and in
    which buffers the answers are expected. */
module SegmentFrames {
  import opened EcTypes
  import opened Datagram
  import opened Port
  import opened ProcessData

  const ECT_REG_DCSYSTIME: uint16 := 0x0910

  // Frames as they are sent

  /** The frame consists of exactly these datagrams. */
  ghost predicate FrameOf(f: Packet, ds: seq<Datagram>) {
    && |ds| > 0 && |f| == Pos(ds, |ds|) <= EC_BUFSIZE
    && Word(f, ETH_HEADERSIZE) as int == EC_ECATTYPE + |f| - ETH_HEADERSIZE - EC_ELENGTHSIZE
    && forall i :: 0 <= i < |ds| ==> Sits(f, Pos(ds, i), ds[i], i < |ds| - 1)
  }

  lemma {:induction false} HoldsFrame(b: seq<byte>, length: nat, ds: seq<Datagram>)
    requires |ds| > 0 && FrameHolds(b, length, ds, false)
    ensures FrameOf(b[..length], ds)
  {
    hide Sits;
    ChainInPrefix(b, length, ds);
    assert Word(b[..length], ETH_HEADERSIZE) == Word(b, ETH_HEADERSIZE);
  }

  /** The DC system time of the reference clock, which the first frame reads and distributes. */
  datatype Clock = Clock(configadr: uint16, time: seq<byte>)

  /** The datagrams of a segment at logical address `logAdr`. */
  function SegmentChain(idx: byte, logAdr: nat, data: seq<byte>, clock: Option<Clock>): seq<Datagram> {
    [NewDatagram(EC_CMD_LRW, idx, (logAdr % 0x1_0000) as uint16, (logAdr / 0x1_0000 % 0x1_0000) as uint16, data)]
    + match clock
      case None => []
      case Some(c) => [NewDatagram(EC_CMD_FRMW, idx, c.configadr, ECT_REG_DCSYSTIME, c.time)]
  }

  /** The datagrams of one segment. */
  function ChainOf(slot: Slot, image: seq<byte>, clock: Option<Clock>): seq<Datagram>
    requires slot.idx < EC_MAXBUF && slot.offset + slot.length <= |image|
  {
    SegmentChain(slot.idx as byte, slot.offset, image[slot.offset..slot.offset + slot.length], clock)
  }

  /** A frame that carries the segment of the slot, and the clock if there is one. */
  ghost predicate Carries(f: Packet, slot: Slot, image: seq<byte>, clock: Option<Clock>) {
    && slot.idx < EC_MAXBUF && slot.offset + slot.length <= |image| && SlotFits(slot, image)
    && (clock.Some? ==> |clock.value.time| == 8)
    && FrameOf(f, ChainOf(slot, image, clock)) && |f| >= 18 && IsEtherCAT(f)
    && slot.dcoffset == (if clock.Some? then slot.length + 24 else 0)
  }

  /** The network answers a frame: header fields that say what the frame is stay the same. */
  ghost predicate Preserved(f: Packet, p: Packet) {
    |p| == |f| && forall i :: 12 <= i < 18 && i < |f| ==> p[i] == f[i]
  }

  lemma {:induction false} FrameHeader(f: Packet, slot: Slot, image: seq<byte>, clock: Option<Clock>)
    requires Carries(f, slot, image, clock)
    ensures |f| == 28 + slot.length + (if clock.Some? then 20 else 0) <= EC_BUFSIZE
    ensures f[16] == EC_CMD_LRW && f[17] as int == slot.idx
    ensures Word(f, 14) as int == EC_ECATTYPE + |f| - 16
  {
    var ds := ChainOf(slot, image, clock);
    assert Pos(ds, 0) == 16 && Pos(ds, 1) == 28 + slot.length;
    if clock.Some? {
      assert Pos(ds, 2) == Pos(ds, 1) + 20;
    }
    assert Sits(f, 16, ds[0], 0 < |ds| - 1);
    hide Pos;
    assert f[16..24][0] == ds[0].command && f[16..24][1] == ds[0].index;
  }

  lemma {:induction false} AnswerToCarrier(
    f: Packet, p: Packet, slot: Slot, image: seq<byte>, clock: Option<Clock>, lens: seq<nat>)
    requires Carries(f, slot, image, clock) && Preserved(f, p)
    requires |lens| == EC_MAXBUF && lens[slot.idx] == |f|
    ensures LrwAnswer(p, lens, slot)
  {
    hide FrameOf;
    FrameHeader(f, slot, image, clock);
    assert p[12] == f[12] && p[13] == f[13] && p[14] == f[14] && p[15] == f[15] && p[16] == f[16] && p[17] == f[17];
    assert Word(p[14..], 0) == Word(f, 14);
    assert (EC_ECATTYPE + |f| - 16) % 0x1000 == |f| - 16;
  }

  // Sending

  /** Where segment `k` begins in the image. */
  function Offset(segs: seq<nat>, k: nat): nat
    requires k <= |segs|
  {
    if k == 0 then 0 else Offset(segs, k - 1) + segs[k - 1]
  }

  function ClockOf(clock: Option<Clock>, k: nat): Option<Clock> {
    if k == 0 then clock else None
  }

  /** Segment `k` is on its way: its frame is sent, and its buffer waits for the answer. */
  ghost predicate OnTheWay(
    s: StackState, lens: seq<nat>, slot: Slot, f: Packet, image: seq<byte>, clock: Option<Clock>)
  {
    && Carries(f, slot, image, clock)
    && |s.rxbufstat| == |lens| == EC_MAXBUF && s.rxbufstat[slot.idx] == EC_BUF_TX && lens[slot.idx] == |f|
  }

  /** The first `k` segments are on their way, in buffers that follow buffer `start`. */
  ghost predicate Progress(s: StackState, lens: seq<nat>, slots: seq<Slot>, frames: seq<Packet>, segs: seq<nat>,
                           image: seq<byte>, clock: Option<Clock>, start: nat, k: nat)
  {
    && k <= |segs| && k <= EC_MAXBUF && |slots| == |frames| == k && |s.rxbufstat| == |lens| == EC_MAXBUF
    && (forall j :: 0 <= j < k ==> OnTheWay(s, lens, slots[j], frames[j], image, ClockOf(clock, j)))
    && (forall j :: 0 <= j < k ==> slots[j].idx == Around(start + 1, j))
    && (forall j :: 0 <= j < k ==> slots[j].offset == Offset(segs, j) && slots[j].length == segs[j])
    && (forall j :: k <= j < EC_MAXBUF ==> IsFree(s.rxbufstat, start, j))
  }

  lemma {:induction false} AroundZero(start: nat)
    requires start < EC_MAXBUF
    ensures Around(start, 0) == start
  {
  }

  lemma {:induction false} AroundApart(start: nat, i: nat, j: nat)
    requires i < j < EC_MAXBUF
    ensures Around(start + 1, i) != Around(start + 1, j)
  {
  }

  lemma {:induction false} ProgressStep(
    s: StackState, lens: seq<nat>, slots: seq<Slot>, frames: seq<Packet>, segs: seq<nat>, image: seq<byte>,
    clock: Option<Clock>, start: nat, k: nat, slot: Slot, f: Packet, s': StackState, lens': seq<nat>)
    requires Progress(s, lens, slots, frames, segs, image, clock, start, k) && k < |segs| && k < EC_MAXBUF
    requires Carries(f, slot, image, ClockOf(clock, k)) && slot.idx == Around(start + 1, k)
    requires slot.offset == Offset(segs, k) && slot.length == segs[k]
    requires s'.rxbufstat == s.rxbufstat[slot.idx := EC_BUF_TX] && lens' == lens[slot.idx := |f|]
    ensures Progress(s', lens', slots + [slot], frames + [f], segs, image, clock, start, k + 1)
  {
    hide Carries;
    hide Around;
    hide Offset;
    var slots', frames' := slots + [slot], frames + [f];
    forall j | 0 <= j < k ensures OnTheWay(s', lens', slots'[j], frames'[j], image, ClockOf(clock, j)) {
      assert OnTheWay(s, lens, slots[j], frames[j], image, ClockOf(clock, j));
      AroundApart(start, j, k);
    }
    assert OnTheWay(s', lens', slots'[k], frames'[k], image, ClockOf(clock, k));
    forall j | k + 1 <= j < EC_MAXBUF ensures IsFree(s'.rxbufstat, start, j) {
      assert IsFree(s.rxbufstat, start, j);
      AroundApart(start, k, j);
    }
  }

  /** Nothing is on its way, and every buffer is empty. */
  lemma {:induction false} ProgressStarts(s: StackState, lens: seq<nat>, segs: seq<nat>, image: seq<byte>,
                                          clock: Option<Clock>, start: nat)
    requires |s.rxbufstat| == |lens| == EC_MAXBUF && forall i :: 0 <= i < EC_MAXBUF ==> s.rxbufstat[i] == EC_BUF_EMPTY
    ensures Progress(s, lens, [], [], segs, image, clock, start, 0)
  {
  }

  lemma {:induction false} ProgressFree(
    s: StackState, lens: seq<nat>, slots: seq<Slot>, frames: seq<Packet>, segs: seq<nat>, image: seq<byte>,
    clock: Option<Clock>, start: nat, k: nat)
    requires Progress(s, lens, slots, frames, segs, image, clock, start, k) && k < EC_MAXBUF
    ensures |s.rxbufstat| == EC_MAXBUF && IsFree(s.rxbufstat, start, k)
  {
    hide OnTheWay;
  }

  lemma {:induction false} OffsetGrows(segs: seq<nat>, j: nat, k: nat)
    requires j <= k <= |segs|
    ensures Offset(segs, j) <= Offset(segs, k)
    decreases k - j
  {
    if j < k {
      OffsetGrows(segs, j, k - 1);
    }
  }

  lemma {:induction false} NextBuffer(stat: seq<nat>, start: nat, lastidx: nat, k: nat)
    requires |stat| == EC_MAXBUF && lastidx == Around(start, k) && IsFree(stat, start, k)
    ensures IsFree(stat, lastidx, 0) && Around(lastidx + 1, 0) == Around(start + 1, k) == Around(start, k + 1)
  {
    assert Around(lastidx + 1, 0) == Around(start + 1, k);
  }

  /** The answer to a frame on its way is expected in its buffer. */
  lemma {:induction false} AnswerExpected(s: StackState, lens: seq<nat>, slot: Slot, f: Packet, p: Packet,
                                          image: seq<byte>, clock: Option<Clock>)
    requires OnTheWay(s, lens, slot, f, image, clock) && Valid(s, lens)
    requires Preserved(f, p) && OnlyAnswer(s.arrivals, slot.idx, p)
    ensures Expects(s, lens, slot, p) && SlotFits(slot, image) && (clock.None? ==> slot.dcoffset == 0)
  {
    AnswerToCarrier(f, p, slot, image, clock, lens);
    hide LrwAnswer;
    hide OnlyAnswer;
    hide Preserved;
    hide FrameOf;
    hide Valid;
  }

  /** The answers to frames on their way are all expected, whatever else arrives. */
  lemma {:induction false} AnswersExpected(
    s: StackState, lens: seq<nat>, slots: seq<Slot>, frames: seq<Packet>, answers: seq<Packet>, segs: seq<nat>,
    image: seq<byte>, clock: Option<Clock>, start: nat, k: nat, g: Gathered)
    requires Progress(s, lens, slots, frames, segs, image, clock, start, k) && Valid(s, lens)
    requires |answers| == k && forall j :: 0 <= j < k ==> Preserved(frames[j], answers[j])
    requires forall j :: 0 <= j < k ==> OnlyAnswer(s.arrivals, slots[j].idx, answers[j])
    requires g.port == s && |g.image| == |image|
    ensures AllExpected(g, lens, slots, answers) && Contiguous(slots)
  {
    hide Around;
    hide Preserved;
    hide OnlyAnswer;
    hide OnTheWay;
    hide Expects;
    hide Valid;
    forall j | 0 <= j < k
      ensures Expects(s, lens, slots[j], answers[j]) && SlotFits(slots[j], image) && (j > 0 ==> slots[j].dcoffset == 0)
    {
      AnswerExpected(s, lens, slots[j], frames[j], answers[j], image, ClockOf(clock, j));
    }
    forall i, j | 0 <= i < j < k ensures slots[i].idx != slots[j].idx {
      AroundApart(start, i, j);
    }
    forall j | 0 < j < k ensures slots[j].offset == slots[j - 1].offset + slots[j - 1].length {
      assert Offset(segs, j) == Offset(segs, j - 1) + segs[j - 1];
    }
  }
}
