/** One whole cycle of process data: mapping, sending, whatever the network does, receiving. */
module CyclicExchange {
  import opened EcTypes
  import opened Datagram
  import opened Port
  import opened ProcessData
  import opened IoSegments
  import opened IoMapping
  import opened IoGroup
  import opened IoImage
  import opened IoWindows
  import opened SegmentFrames
  import opened ProcessWire
  import opened SendReceive

  /** A segment holds what its answer carried if that came, or else what it held before. */
  ghost predicate SegmentExchanged(before: seq<byte>, after: seq<byte>, slot: Slot, p: Packet, came: bool) {
    && |before| == |after| && slot.offset + slot.length <= |before|
    && ETH_HEADERSIZE + EC_HEADERSIZE + slot.length + EC_WKCSIZE <= |p|
    && after[slot.offset..slot.offset + slot.length]
       == if came then DataOf(p, slot) else before[slot.offset..slot.offset + slot.length]
  }

  /** What the network does with frames: it answers each, and delivers answers in any order, any
      number of times or never, with pauses and with packets of others in between. */
  datatype Network = Network(answer: Packet -> Packet, schedule: seq<Packet> -> seq<Option<Packet>>)

  predicate IsForeign(p: Packet) {
    18 <= |p| <= EC_BUFSIZE && (IsEtherCAT(p) ==> IndexOf(p) as int >= EC_MAXBUF)
  }

  ghost predicate Delivers(answers: seq<Packet>, arrivals: seq<Option<Packet>>) {
    forall e :: 0 <= e < |arrivals| && arrivals[e].Some? ==>
      IsForeign(arrivals[e].value) || arrivals[e].value in answers
  }

  ghost predicate Faithful(network: Network) {
    && (forall f :: Preserved(f, network.answer(f)))
    && (forall fs :: Delivers(Answers(network, fs), network.schedule(fs)))
  }

  ghost function Answers(network: Network, frames: seq<Packet>): (answers: seq<Packet>)
    ensures |answers| == |frames| && forall k :: 0 <= k < |frames| ==> answers[k] == network.answer(frames[k])
  {
    seq(|frames|, k requires 0 <= k < |frames| => network.answer(frames[k]))
  }

  /** A frame of the master is answered as `answer` says, and as many as there are buffers are
      delivered: what `Faithful` asks of a network can be met. */
  lemma {:induction false} NetworkExists(answer: Packet -> Packet) returns (network: Network)
    requires forall f :: Preserved(f, answer(f))
    ensures Faithful(network) && network.answer == answer
    ensures forall fs :: |network.schedule(fs)| <= EC_MAXBUF
    ensures forall fs, k :: 0 <= k < |fs| <= EC_MAXBUF ==> Some(network.answer(fs[k])) in network.schedule(fs)
  {
    network := Network(answer, (fs: seq<Packet>) =>
      if |fs| <= EC_MAXBUF then seq(|fs|, k requires 0 <= k < |fs| => Some(answer(fs[k]))) else []);
    hide Preserved;
    forall fs ensures Delivers(Answers(network, fs), network.schedule(fs)) {
      forall e | 0 <= e < |network.schedule(fs)| ensures network.schedule(fs)[e].value in Answers(network, fs) {
        assert Answers(network, fs)[e] == answer(fs[e]);
      }
    }
    forall fs, k | 0 <= k < |fs| <= EC_MAXBUF ensures Some(network.answer(fs[k])) in network.schedule(fs) {
      assert network.schedule(fs)[k] == Some(answer(fs[k]));
    }
  }

  /** The state of the port once frames are sent and the network has scheduled the answers. */
  ghost predicate Underway(
    s: StackState, lens: seq<nat>, slots: seq<Slot>, frames: seq<Packet>, answers: seq<Packet>, segs: seq<nat>,
    image: seq<byte>, clock: Option<Clock>, start: nat)
  {
    && Progress(s, lens, slots, frames, segs, image, clock, start, |slots|)
    && |answers| == |slots| && (forall j :: 0 <= j < |slots| ==> Preserved(frames[j], answers[j]))
    && Delivers(answers, s.arrivals)
    && |s.rxbuf| == |s.rxsa| == EC_MAXBUF && forall i :: 0 <= i < EC_MAXBUF ==> |s.rxbuf[i]| == EC_BUFSIZE
  }

  lemma {:induction false} AnswerOf(
    s: StackState, lens: seq<nat>, slots: seq<Slot>, frames: seq<Packet>, answers: seq<Packet>, segs: seq<nat>,
    image: seq<byte>, clock: Option<Clock>, start: nat, j: nat)
    requires Underway(s, lens, slots, frames, answers, segs, image, clock, start) && j < |slots|
    ensures LrwAnswer(answers[j], lens, slots[j]) && slots[j].idx == Around(start + 1, j) && |slots| <= EC_MAXBUF
  {
    hide LrwAnswer;
    hide Around;
    hide Preserved;
    hide Delivers;
    assert OnTheWay(s, lens, slots[j], frames[j], image, ClockOf(clock, j));
    AnswerToCarrier(frames[j], answers[j], slots[j], image, ClockOf(clock, j), lens);
  }

  lemma {:induction false} AroundFrom(n: nat, d: nat)
    requires d < EC_MAXBUF
    ensures var r := n % EC_MAXBUF; Around(n, d) == if r + d < EC_MAXBUF then r + d else r + d - EC_MAXBUF
  {
    var q := n / EC_MAXBUF;
    assert n == q * EC_MAXBUF + n % EC_MAXBUF;
  }

  /** Every buffer is one of those that follow `start`. */
  lemma {:induction false} AroundCovers(start: nat, i: nat) returns (d: nat)
    requires i < EC_MAXBUF
    ensures d < EC_MAXBUF && Around(start + 1, d) == i
  {
    var r := (start + 1) % EC_MAXBUF;
    d := if i >= r then i - r else i + EC_MAXBUF - r;
    AroundFrom(start + 1, d);
  }

  lemma {:induction false} BufferStates(
    s: StackState, lens: seq<nat>, slots: seq<Slot>, frames: seq<Packet>, segs: seq<nat>,
    image: seq<byte>, clock: Option<Clock>, start: nat, i: nat)
    requires Progress(s, lens, slots, frames, segs, image, clock, start, |slots|) && i < EC_MAXBUF
    ensures s.rxbufstat[i] == EC_BUF_EMPTY
      || (s.rxbufstat[i] == EC_BUF_TX && exists j :: 0 <= j < |slots| && slots[j].idx == i)
  {
    hide Around;
    hide Carries;
    var d := AroundCovers(start, i);
    if d < |slots| {
      assert OnTheWay(s, lens, slots[d], frames[d], image, ClockOf(clock, d));
    } else {
      assert IsFree(s.rxbufstat, start, d);
    }
  }

  /** Answer `m` has the index of its own frame and of no other. */
  lemma {:induction false} AnswerIndex(
    s: StackState, lens: seq<nat>, slots: seq<Slot>, frames: seq<Packet>, answers: seq<Packet>, segs: seq<nat>,
    image: seq<byte>, clock: Option<Clock>, start: nat, m: nat, j: nat)
    requires Underway(s, lens, slots, frames, answers, segs, image, clock, start) && m < |slots| && j < |slots|
    requires |answers| == |slots| && HasIndex(answers[m], slots[j].idx)
    ensures m == j
  {
    AnswerOf(s, lens, slots, frames, answers, segs, image, clock, start, m);
    AnswerOf(s, lens, slots, frames, answers, segs, image, clock, start, j);
    hide Underway;
    if j < m {
      AroundApart(start, j, m);
    } else if m < j {
      AroundApart(start, m, j);
    }
    hide Around;
  }

  lemma {:induction false} DeliveredIsSound(
    s: StackState, lens: seq<nat>, slots: seq<Slot>, frames: seq<Packet>, answers: seq<Packet>, segs: seq<nat>,
    image: seq<byte>, clock: Option<Clock>, start: nat, p: Packet)
    requires Underway(s, lens, slots, frames, answers, segs, image, clock, start)
    requires |lens| == EC_MAXBUF && |answers| == |slots| && (IsForeign(p) || p in answers)
    ensures Sound(p, lens)
    ensures forall j :: 0 <= j < |slots| && HasIndex(p, slots[j].idx) ==> p == answers[j]
  {
    hide Underway;
    hide IsEtherCAT;
    if IsForeign(p) {
      forall j | 0 <= j < |slots| ensures !HasIndex(p, slots[j].idx) {
        AnswerOf(s, lens, slots, frames, answers, segs, image, clock, start, j);
        hide LrwAnswer;
      }
    } else {
      hide HasIndex;
      var m :| 0 <= m < |answers| && answers[m] == p;
      AnswerOf(s, lens, slots, frames, answers, segs, image, clock, start, m);
      assert Sound(p, lens);
      hide LrwAnswer;
      forall j | 0 <= j < |slots| && HasIndex(p, slots[j].idx) ensures p == answers[j] {
        AnswerIndex(s, lens, slots, frames, answers, segs, image, clock, start, m, j);
      }
    }
  }

  lemma {:induction false} UnderwayIsValid(
    s: StackState, lens: seq<nat>, slots: seq<Slot>, frames: seq<Packet>, answers: seq<Packet>, segs: seq<nat>,
    image: seq<byte>, clock: Option<Clock>, start: nat)
    requires Underway(s, lens, slots, frames, answers, segs, image, clock, start)
    ensures Valid(s, lens)
    ensures forall j :: 0 <= j < |slots| ==> OnlyAnswer(s.arrivals, slots[j].idx, answers[j])
  {
    hide Sound;
    hide HasIndex;
    hide Preserved;
    hide OnTheWay;
    hide IsForeign;
    forall e | 0 <= e < |s.arrivals| && s.arrivals[e].Some?
      ensures Sound(s.arrivals[e].value, lens)
      ensures forall j :: 0 <= j < |slots| && HasIndex(s.arrivals[e].value, slots[j].idx) ==>
        s.arrivals[e].value == answers[j]
    {
      DeliveredIsSound(s, lens, slots, frames, answers, segs, image, clock, start, s.arrivals[e].value);
    }
    forall i | 0 <= i < EC_MAXBUF ensures s.rxbufstat[i] != EC_BUF_RCVD {
      BufferStates(s, lens, slots, frames, segs, image, clock, start, i);
    }
  }

  /** Which answers came. */
  ghost function Came(answers: seq<Packet>, arrivals: seq<Option<Packet>>): (came: seq<bool>)
    ensures |came| == |answers|
  {
    seq(|answers|, k requires 0 <= k < |answers| => Some(answers[k]) in arrivals)
  }

  lemma {:induction false} UnderwayIsExpected(
    s: StackState, lens: seq<nat>, slots: seq<Slot>, frames: seq<Packet>, answers: seq<Packet>, segs: seq<nat>,
    image: seq<byte>, clock: Option<Clock>, start: nat, g: Gathered)
    requires Underway(s, lens, slots, frames, answers, segs, image, clock, start) && g.port == s && |g.image| == |image|
    ensures AllExpected(g, lens, slots, answers) && Contiguous(slots)
  {
    UnderwayIsValid(s, lens, slots, frames, answers, segs, image, clock, start);
    AnswersExpected(s, lens, slots, frames, answers, segs, image, clock, start, |slots|, g);
  }

  lemma {:induction false} NotReceivedYet(
    s: StackState, lens: seq<nat>, slots: seq<Slot>, frames: seq<Packet>, answers: seq<Packet>, segs: seq<nat>,
    image: seq<byte>, clock: Option<Clock>, start: nat, k: nat)
    requires Underway(s, lens, slots, frames, answers, segs, image, clock, start) && k < |slots|
    ensures slots[k].idx < |s.rxbufstat| && s.rxbufstat[slots[k].idx] == EC_BUF_TX
  {
    hide Preserved;
    assert OnTheWay(s, lens, slots[k], frames[k], image, ClockOf(clock, k));
  }

  /** With time enough, the frames that are taken are those whose answers came. */
  lemma {:induction false} GotIsCame(
    s: StackState, lens: seq<nat>, slots: seq<Slot>, frames: seq<Packet>, answers: seq<Packet>, segs: seq<nat>,
    image: seq<byte>, clock: Option<Clock>, start: nat, g: Gathered, polls: nat)
    requires Underway(s, lens, slots, frames, answers, segs, image, clock, start) && g.port == s && |g.image| == |image|
    requires polls >= |s.arrivals| && Valid(s, lens) && SlotsFit(slots, g.image)
    ensures GotAll(g, lens, slots, polls) == Came(answers, s.arrivals)
  {
    UnderwayIsExpected(s, lens, slots, frames, answers, segs, image, clock, start, g);
    forall k | 0 <= k < |slots| ensures Got(g, lens, slots, polls, k) <==> Some(answers[k]) in s.arrivals {
      NotReceivedYet(s, lens, slots, frames, answers, segs, image, clock, start, k);
      GotIffComing(g, lens, slots, answers, polls, k);
      hide AllExpected;
      hide Underway;
      hide Got;
    }
    hide AllExpected;
    assert |slots| == |answers|;
    hide Underway;
    hide Got;
  }

  /** After the cycle every buffer is empty. */
  lemma {:induction false} AllBuffersEmpty(
    s: StackState, lens: seq<nat>, slots: seq<Slot>, frames: seq<Packet>, answers: seq<Packet>, segs: seq<nat>,
    image: seq<byte>, clock: Option<Clock>, start: nat, g: Gathered, polls: nat, i: nat)
    requires Underway(s, lens, slots, frames, answers, segs, image, clock, start) && g.port == s && |g.image| == |image|
    requires Valid(s, lens) && SlotsFit(slots, g.image) && i < EC_MAXBUF
    ensures ReceiveTo(g, lens, slots, polls, |slots|).port.rxbufstat[i] == EC_BUF_EMPTY
  {
    UnderwayIsExpected(s, lens, slots, frames, answers, segs, image, clock, start, g);
    hide ReceiveTo;
    hide Expects;
    hide OnTheWay;
    hide Preserved;
    hide Delivers;
    if j :| 0 <= j < |slots| && slots[j].idx == i {
      BuffersAreFreed(g, lens, slots, polls, |slots|, j);
    } else {
      BufferStates(s, lens, slots, frames, segs, image, clock, start, i);
      OthersStayEmpty(g, lens, slots, polls, |slots|, i);
    }
  }

  /** What one cycle makes of the image, the working counter and the buffers. */
  ghost predicate CycleDone(
    before: seq<byte>, after: Gathered, slots: seq<Slot>, answers: seq<Packet>, came: seq<bool>, size: nat)
    requires |answers| == |came| == |slots|
  {
    && (forall k :: 0 <= k < |slots| ==> SegmentExchanged(before, after.image, slots[k], answers[k], came[k]))
    && size <= |before| == |after.image| && after.image[size..] == before[size..]
    && (after.valid <==> true in came)
    && |after.port.rxbufstat| == EC_MAXBUF && forall i :: 0 <= i < EC_MAXBUF ==> after.port.rxbufstat[i] == EC_BUF_EMPTY
  }

  lemma {:induction false} SameSlice(a: seq<byte>, i: nat, b: seq<byte>, j: nat, n: nat)
    requires i + n <= |a| && j + n <= |b| && forall x :: i <= x < i + n ==> a[x] == b[x - i + j]
    ensures a[i..i + n] == b[j..j + n]
  {
    var c, d := a[i..i + n], b[j..j + n];
    forall k | 0 <= k < n ensures c[k] == d[k] {
      assert a[i + k] == b[j + k];
    }
  }

  lemma {:induction false} MergedSegment(
    image: seq<byte>, slots: seq<Slot>, answers: seq<Packet>, got: seq<bool>, lens: seq<nat>, k: nat)
    requires k < |slots| == |answers| == |got| && SlotsFit(slots, image) && Contiguous(slots)
    requires forall k :: 0 <= k < |slots| ==> LrwAnswer(answers[k], lens, slots[k])
    ensures SegmentExchanged(image, Merged(image, slots, answers, got, lens, |slots|), slots[k], answers[k], got[k])
  {
    assert LrwAnswer(answers[k], lens, slots[k]) && SlotFits(slots[k], image);
    hide LrwAnswer;
    hide DataOf;
    hide Contiguous;
    var o, n := slots[k].offset, slots[k].length;
    var r := Merged(image, slots, answers, got, lens, |slots|);
    forall x | o <= x < o + n ensures r[x] == if got[k] then DataOf(answers[k], slots[k])[x - o] else image[x] {
      MergedByte(image, slots, answers, got, lens, |slots|, k, x - o);
    }
    hide Merged;
    var data := DataOf(answers[k], slots[k]);
    if got[k] {
      SameSlice(r, o, data, 0, n);
      assert data[0..n] == data;
    } else {
      SameSlice(r, o, image, o, n);
    }
  }

  lemma {:induction false} MergedRest(
    image: seq<byte>, slots: seq<Slot>, answers: seq<Packet>, got: seq<bool>, lens: seq<nat>, size: nat)
    requires |slots| == |answers| == |got| && SlotsFit(slots, image) && size <= |image|
    requires forall k :: 0 <= k < |slots| ==> LrwAnswer(answers[k], lens, slots[k])
    requires forall k :: 0 <= k < |slots| ==> slots[k].offset + slots[k].length <= size
    ensures Merged(image, slots, answers, got, lens, |slots|)[size..] == image[size..]
  {
    hide LrwAnswer;
    hide SlotFits;
    forall i | size <= i < |image| ensures Merged(image, slots, answers, got, lens, |slots|)[i] == image[i] {
      MergedElsewhere(image, slots, answers, got, lens, |slots|, i);
    }
    hide Merged;
  }

  /** One cycle, for every order in which the answers arrive and whichever are lost, if there is
      time enough: each segment whose answer came holds exactly the bytes that were returned at
      its addresses, every other byte is as it was, the working counter is the sum of those of
      the process data that came, and every buffer is free. */
  lemma {:induction false} CycleIsExact(
    s: StackState, lens: seq<nat>, slots: seq<Slot>, frames: seq<Packet>, answers: seq<Packet>, segs: seq<nat>,
    image: seq<byte>, clock: Option<Clock>, start: nat, time: seq<byte>, polls: nat)
    requires Underway(s, lens, slots, frames, answers, segs, image, clock, start)
    requires polls >= |s.arrivals| && |slots| <= |segs| && Offset(segs, |slots|) <= |image|
    ensures Valid(s, lens) && SlotsFit(slots, image)
    ensures forall k :: 0 <= k < |slots| ==> LrwAnswer(answers[k], lens, slots[k])
    ensures var r := ReceiveTo(Gathered(s, image, 0, false, time), lens, slots, polls, |slots|);
            var came := Came(answers, s.arrivals);
            && CycleDone(image, r, slots, answers, came, Offset(segs, |slots|))
            && r.wkc == WkcSum(slots, answers, came, |slots|)
            && r.DCtime
               == (if |slots| > 0 && came[0] && slots[0].dcoffset > 0 then TimeOf(answers[0], slots[0]) else time)
  {
    hide Preserved;
    hide LrwAnswer;
    hide SlotFits;
    hide Expects;
    hide ReceiveTo;
    hide Merged;
    hide OnTheWay;
    hide Delivers;
    hide SegmentExchanged;
    var g := Gathered(s, image, 0, false, time);
    var came := Came(answers, s.arrivals);
    UnderwayIsExpected(s, lens, slots, frames, answers, segs, image, clock, start, g);
    ReceiveGathers(g, lens, slots, answers, polls, |slots|);
    GotIsCame(s, lens, slots, frames, answers, segs, image, clock, start, g, polls);
    assert came[..|slots|] == came;
    SlotsEnd(s, lens, slots, frames, segs, image, clock, start);
    hide Progress;
    MergedRest(image, slots, answers, came, lens, Offset(segs, |slots|));
    forall k | 0 <= k < |slots|
      ensures SegmentExchanged(image, Merged(image, slots, answers, came, lens, |slots|), slots[k], answers[k], came[k])
    {
      MergedSegment(image, slots, answers, came, lens, k);
    }
    hide AllExpected;
    hide Contiguous;
    forall i | 0 <= i < EC_MAXBUF ensures ReceiveTo(g, lens, slots, polls, |slots|).port.rxbufstat[i] == EC_BUF_EMPTY {
      AllBuffersEmpty(s, lens, slots, frames, answers, segs, image, clock, start, g, polls, i);
    }
    hide Underway;
  }

  lemma {:induction false} SlotsEnd(
    s: StackState, lens: seq<nat>, slots: seq<Slot>, frames: seq<Packet>, segs: seq<nat>,
    image: seq<byte>, clock: Option<Clock>, start: nat)
    requires Progress(s, lens, slots, frames, segs, image, clock, start, |slots|)
    ensures forall k :: 0 <= k < |slots| ==> slots[k].offset + slots[k].length <= Offset(segs, |slots|)
  {
    hide OnTheWay;
    hide Around;
    forall k | 0 <= k < |slots| ensures slots[k].offset + slots[k].length <= Offset(segs, |slots|) {
      assert Offset(segs, k + 1) == Offset(segs, k) + segs[k];
      OffsetGrows(segs, k + 1, |slots|);
    }
  }

  /** When the network has scheduled its answers, sending has set up everything for receiving. */
  lemma {:induction false} SendLeavesUnderway(
    s: StackState, lens: seq<nat>, slots: seq<Slot>, frames: seq<Packet>, network: Network, segs: seq<nat>,
    image: seq<byte>, clock: Option<Clock>, start: nat)
    requires Progress(s, lens, slots, frames, segs, image, clock, start, |slots|) && Faithful(network)
    requires |s.rxbuf| == |s.rxsa| == EC_MAXBUF && forall i :: 0 <= i < EC_MAXBUF ==> |s.rxbuf[i]| == EC_BUFSIZE
    ensures Underway(s.(arrivals := network.schedule(frames)), lens, slots, frames, Answers(network, frames),
                     segs, image, clock, start)
    ensures |frames| == |slots|
  {
    hide Carries;
    var s' := s.(arrivals := network.schedule(frames));
    assert Progress(s', lens, slots, frames, segs, image, clock, start, |slots|) by {
      forall j | 0 <= j < |slots| ensures OnTheWay(s', lens, slots[j], frames[j], image, ClockOf(clock, j)) {
        assert OnTheWay(s, lens, slots[j], frames[j], image, ClockOf(clock, j));
      }
    }
  }

  /** The slots lie one behind the other and fill the first `size` bytes. */
  ghost predicate Tiles(slots: seq<Slot>, size: nat) {
    && Contiguous(slots)
    && (if |slots| == 0 then size == 0
        else slots[0].offset == 0 && slots[|slots| - 1].offset + slots[|slots| - 1].length == size)
  }

  /** The sum of the process data working counters in the answers that came, or "no frame". */
  ghost function CycleWkc(slots: seq<Slot>, frames: seq<Packet>, network: Network): int
    requires |slots| == |frames|
  {
    var came := Came(Answers(network, frames), network.schedule(frames));
    if true in came then WkcSum(slots, Answers(network, frames), came, |slots|) else EC_NOFRAME
  }

  /** The DC time that the first answer brought, if it came and carries one. */
  ghost function CycleTime(slots: seq<Slot>, frames: seq<Packet>, network: Network, time: seq<byte>): seq<byte>
    requires |slots| == |frames|
  {
    if |slots| > 0 && Came(Answers(network, frames), network.schedule(frames))[0] && slots[0].dcoffset > 0 then
      TimeOf(network.answer(frames[0]), slots[0])
    else time
  }

  /** The frames carried the whole image, and each segment came back as its answer says. */
  ghost predicate ExchangeDone(before: seq<byte>, after: seq<byte>, slots: seq<Slot>, frames: seq<Packet>,
                               network: Network, clock: Option<Clock>, size: nat)
  {
    && |frames| == |slots| && size <= |before| == |after| && Tiles(slots, size)
    && (forall k :: 0 <= k < |slots| ==> Carries(frames[k], slots[k], before, ClockOf(clock, k)))
    && (forall k :: 0 <= k < |slots| ==>
          SegmentExchanged(before, after, slots[k], network.answer(frames[k]),
                           Some(network.answer(frames[k])) in network.schedule(frames)))
    && after[size..] == before[size..]
  }

  lemma {:induction false} CycleTotals(
    r: Gathered, slots: seq<Slot>, frames: seq<Packet>, network: Network, time: seq<byte>)
    requires |slots| == |frames|
    requires var answers, came := Answers(network, frames), Came(Answers(network, frames), network.schedule(frames));
             && (r.valid <==> true in came) && r.wkc == WkcSum(slots, answers, came, |slots|)
             && r.DCtime
                == (if |slots| > 0 && came[0] && slots[0].dcoffset > 0 then TimeOf(answers[0], slots[0]) else time)
    ensures (if r.valid then r.wkc else EC_NOFRAME) == CycleWkc(slots, frames, network)
    ensures r.DCtime == CycleTime(slots, frames, network, time)
  {
    hide TimeOf;
    hide WkcSum;
  }

  lemma {:induction false} ExchangeIsExact(
    s: StackState, lens: seq<nat>, slots: seq<Slot>, frames: seq<Packet>, network: Network, segs: seq<nat>,
    image: seq<byte>, clock: Option<Clock>, start: nat, time: seq<byte>, polls: nat)
    requires Progress(s, lens, slots, frames, segs, image, clock, start, |slots|) && Faithful(network)
    requires |s.rxbuf| == |s.rxsa| == EC_MAXBUF && forall i :: 0 <= i < EC_MAXBUF ==> |s.rxbuf[i]| == EC_BUFSIZE
    requires |network.schedule(frames)| <= polls && |slots| <= |segs| && Offset(segs, |slots|) <= |image|
    ensures |frames| == |slots|
    ensures var s1 := s.(arrivals := network.schedule(frames));
            && Valid(s1, lens) && SlotsFit(slots, image)
            && var r := ReceiveTo(Gathered(s1, image, 0, false, time), lens, slots, polls, |slots|);
               && ExchangeDone(image, r.image, slots, frames, network, clock, Offset(segs, |slots|))
               && (if r.valid then r.wkc else EC_NOFRAME) == CycleWkc(slots, frames, network)
               && r.DCtime == CycleTime(slots, frames, network, time)
               && ImageOnWire(frames, slots, segs, image, clock)
               && CycleOnWire(image, r.image, frames, network, clock, Offset(segs, |slots|),
                              CycleWkc(slots, frames, network), time, r.DCtime)
               && |r.port.rxbufstat| == EC_MAXBUF
               && forall i :: 0 <= i < EC_MAXBUF ==> r.port.rxbufstat[i] == EC_BUF_EMPTY
  {
    var s1 := s.(arrivals := network.schedule(frames));
    var answers, came := Answers(network, frames), Came(Answers(network, frames), network.schedule(frames));
    SendLeavesUnderway(s, lens, slots, frames, network, segs, image, clock, start);
    hide *;
    CycleIsExact(s1, lens, slots, frames, answers, segs, image, clock, start, time, polls);
    var r := ReceiveTo(Gathered(s1, image, 0, false, time), lens, slots, polls, |slots|);
    DoneParts(image, r, slots, answers, came, Offset(segs, |slots|));
    CycleTotals(r, slots, frames, network, time);
    SlotsTile(s, lens, slots, frames, segs, image, clock, start);
    DoneIsExchange(image, r.image, slots, frames, network, clock, Offset(segs, |slots|));
    ExchangeOnWire(s, lens, slots, frames, network, segs, image, clock, start, r.image, time);
  }

  /** What is exchanged, as it is on the wire. */
  ghost predicate CycleOnWire(
    before: seq<byte>, after: seq<byte>, frames: seq<Packet>, network: Network, clock: Option<Clock>, size: nat,
    wkc: int, time0: seq<byte>, time: seq<byte>)
  {
    var answers, came := Answers(network, frames), Came(Answers(network, frames), network.schedule(frames));
    && ImageCarried(frames, before, size)
    && ImageReturned(before, after, frames, answers, came, size)
    && wkc == (if true in came then WkcReturned(frames, answers, came, |frames|) else -1)
    && time == (if clock.Some? && |frames| > 0 && came[0] then TimeReturned(frames, answers) else time0)
  }

  lemma {:induction false} SlotOnWire(
    s: StackState, lens: seq<nat>, slots: seq<Slot>, frames: seq<Packet>, network: Network, segs: seq<nat>,
    image: seq<byte>, clock: Option<Clock>, start: nat, k: nat)
    requires Progress(s, lens, slots, frames, segs, image, clock, start, |slots|) && Faithful(network)
    requires k < |slots| == |frames| <= |segs|
    ensures var p := network.answer(frames[k]);
            && WkcOf(p, slots[k]) as int == WkcAt(p, 26 + DataLength(frames[k]))
            && (ClockOf(clock, k).Some? ==>
                  slots[k].dcoffset > 0 && TimeOf(p, slots[k]) == TimeReturned([frames[k]], [p]))
            && (clock.None? ==> slots[k].dcoffset == 0)
  {
    CarriesAt(s, lens, slots, frames, segs, image, clock, start, |slots|, k);
    assert Preserved(frames[k], network.answer(frames[k]));
    hide Progress;
    hide Faithful;
    hide Carries;
    hide TimeOf;
    hide WkcOf;
    hide DataLength;
    hide TimeReturned;
    WkcIsReturned(frames[k], network.answer(frames[k]), slots[k], image, ClockOf(clock, k));
  }

  lemma {:induction false} ImageIsReturned(
    s: StackState, lens: seq<nat>, slots: seq<Slot>, frames: seq<Packet>, network: Network, segs: seq<nat>,
    image: seq<byte>, clock: Option<Clock>, start: nat, after: seq<byte>)
    requires Progress(s, lens, slots, frames, segs, image, clock, start, |slots|) && Faithful(network)
    requires |slots| <= |segs| && Offset(segs, |slots|) <= |image| && |frames| == |slots|
    requires ExchangeDone(image, after, slots, frames, network, clock, Offset(segs, |slots|))
    ensures ImageReturned(image, after, frames, Answers(network, frames),
                          Came(Answers(network, frames), network.schedule(frames)), Offset(segs, |slots|))
  {
    hide Progress;
    hide Carries;
    hide Tiles;
    hide FrameReturned;
    hide Offset;
    hide Faithful;
    hide SegmentExchanged;
    var answers, came := Answers(network, frames), Came(Answers(network, frames), network.schedule(frames));
    forall k | 0 <= k < |frames| ensures FrameReturned(image, after, frames[k], answers[k], came[k]) {
      CarriesAt(s, lens, slots, frames, segs, image, clock, start, |slots|, k);
      OneIsReturned(frames[k], slots[k], network, image, after, ClockOf(clock, k), came[k]);
    }
  }

  lemma {:induction false} OneIsReturned(f: Packet, slot: Slot, network: Network, before: seq<byte>, after: seq<byte>,
                                         clock: Option<Clock>, came: bool)
    requires Faithful(network) && Carries(f, slot, before, clock) && slot.offset < 0x1_0000_0000
    requires SegmentExchanged(before, after, slot, network.answer(f), came)
    ensures FrameReturned(before, after, f, network.answer(f), came)
  {
    assert Preserved(f, network.answer(f));
    FrameHeader(f, slot, before, clock);
    hide Carries;
    hide Faithful;
    hide CarriesByte;
    forall x: nat | CarriesByte(f, x) ensures ByteReturned(before, after, f, network.answer(f), came, x) {
      OneReturned(before, after, f, network.answer(f), slot, clock, came, x);
    }
  }

  lemma {:induction false} TotalsOnWire(
    s: StackState, lens: seq<nat>, slots: seq<Slot>, frames: seq<Packet>, network: Network, segs: seq<nat>,
    image: seq<byte>, clock: Option<Clock>, start: nat, time: seq<byte>)
    requires Progress(s, lens, slots, frames, segs, image, clock, start, |slots|) && Faithful(network)
    requires |frames| == |slots| <= |segs|
    ensures var answers, came := Answers(network, frames), Came(Answers(network, frames), network.schedule(frames));
            CycleWkc(slots, frames, network) == if true in came then WkcReturned(frames, answers, came, |frames|)
              else -1
    ensures CycleTime(slots, frames, network, time)
            == if clock.Some? && |frames| > 0 && Came(Answers(network, frames), network.schedule(frames))[0]
               then TimeReturned(frames, Answers(network, frames)) else time
  {
    var answers, came := Answers(network, frames), Came(Answers(network, frames), network.schedule(frames));
    hide Progress;
    hide Faithful;
    hide WkcOf;
    hide WkcAt;
    hide DataLength;
    hide TimeOf;
    hide Offset;
    hide Came;
    forall k | 0 <= k < |slots|
      ensures WkcOf(answers[k], slots[k]) as int == WkcAt(answers[k], 26 + DataLength(frames[k]))
    {
      SlotOnWire(s, lens, slots, frames, network, segs, image, clock, start, k);
    }
    if |slots| > 0 {
      SlotOnWire(s, lens, slots, frames, network, segs, image, clock, start, 0);
    }
    WkcIsSum(slots, frames, answers, came, |slots|);
    hide WkcSum;
    hide WkcReturned;
  }

  lemma {:induction false} ExchangeOnWire(
    s: StackState, lens: seq<nat>, slots: seq<Slot>, frames: seq<Packet>, network: Network, segs: seq<nat>,
    image: seq<byte>, clock: Option<Clock>, start: nat, after: seq<byte>, time: seq<byte>)
    requires Progress(s, lens, slots, frames, segs, image, clock, start, |slots|) && Faithful(network)
    requires |frames| == |slots| <= |segs| && Offset(segs, |slots|) <= |image|
    requires ExchangeDone(image, after, slots, frames, network, clock, Offset(segs, |slots|))
    ensures ImageOnWire(frames, slots, segs, image, clock)
    ensures CycleOnWire(image, after, frames, network, clock, Offset(segs, |slots|), CycleWkc(slots, frames, network),
                        time, CycleTime(slots, frames, network, time))
  {
    hide *;
    ProgressOnWire(s, lens, slots, frames, segs, image, clock, start, |slots|);
    WireCarriesImage(frames, slots, segs, image, clock, Offset(segs, |slots|));
    ImageIsReturned(s, lens, slots, frames, network, segs, image, clock, start, after);
    TotalsOnWire(s, lens, slots, frames, network, segs, image, clock, start, time);
    OnWireParts(image, after, frames, network, clock, Offset(segs, |slots|), CycleWkc(slots, frames, network),
                time, CycleTime(slots, frames, network, time));
  }

  lemma {:induction false} OnWireParts(
    before: seq<byte>, after: seq<byte>, frames: seq<Packet>, network: Network, clock: Option<Clock>, size: nat,
    wkc: int, time0: seq<byte>, time: seq<byte>)
    requires ImageCarried(frames, before, size)
    requires var answers, came := Answers(network, frames), Came(Answers(network, frames), network.schedule(frames));
             && ImageReturned(before, after, frames, answers, came, size)
             && wkc == (if true in came then WkcReturned(frames, answers, came, |frames|) else -1)
             && time == (if clock.Some? && |frames| > 0 && came[0] then TimeReturned(frames, answers) else time0)
    ensures CycleOnWire(before, after, frames, network, clock, size, wkc, time0, time)
  {
    hide ImageCarried;
    hide ImageReturned;
    hide WkcReturned;
    hide TimeReturned;
    hide Came;
  }

  lemma {:induction false} DoneParts(
    before: seq<byte>, after: Gathered, slots: seq<Slot>, answers: seq<Packet>, came: seq<bool>, size: nat)
    requires |answers| == |came| == |slots| && CycleDone(before, after, slots, answers, came, size)
    ensures forall k :: 0 <= k < |slots| ==> SegmentExchanged(before, after.image, slots[k], answers[k], came[k])
    ensures size <= |before| == |after.image| && after.image[size..] == before[size..]
      && (after.valid <==> true in came)
    ensures |after.port.rxbufstat| == EC_MAXBUF
    ensures forall i :: 0 <= i < EC_MAXBUF ==> after.port.rxbufstat[i] == EC_BUF_EMPTY
  {
    hide SegmentExchanged;
  }

  lemma {:induction false} DoneIsExchange(
    before: seq<byte>, after: seq<byte>, slots: seq<Slot>, frames: seq<Packet>, network: Network,
    clock: Option<Clock>, size: nat)
    requires |frames| == |slots| && size <= |before| == |after| && Tiles(slots, size) && after[size..] == before[size..]
    requires forall k :: 0 <= k < |slots| ==> Carries(frames[k], slots[k], before, ClockOf(clock, k))
    requires var answers, came := Answers(network, frames), Came(Answers(network, frames), network.schedule(frames));
             forall k :: 0 <= k < |slots| ==> SegmentExchanged(before, after, slots[k], answers[k], came[k])
    ensures ExchangeDone(before, after, slots, frames, network, clock, size)
  {
    hide Carries;
    hide Tiles;
    hide SegmentExchanged;
    var answers, came := Answers(network, frames), Came(Answers(network, frames), network.schedule(frames));
    forall k | 0 <= k < |slots|
      ensures SegmentExchanged(before, after, slots[k], network.answer(frames[k]),
                               Some(network.answer(frames[k])) in network.schedule(frames))
    {
      assert SegmentExchanged(before, after, slots[k], answers[k], came[k]);
    }
  }

  lemma {:induction false} SlotsTile(
    s: StackState, lens: seq<nat>, slots: seq<Slot>, frames: seq<Packet>, segs: seq<nat>,
    image: seq<byte>, clock: Option<Clock>, start: nat)
    requires Progress(s, lens, slots, frames, segs, image, clock, start, |slots|)
    ensures |slots| <= |segs| && Tiles(slots, Offset(segs, |slots|))
    ensures forall k :: 0 <= k < |slots| ==> Carries(frames[k], slots[k], image, ClockOf(clock, k))
  {
    hide Carries;
    hide Around;
    hide IsFree;
    forall j | 0 <= j < |slots|
      ensures Carries(frames[j], slots[j], image, ClockOf(clock, j)) && (j > 0 ==> slots[j].dcoffset == 0)
    {
      assert OnTheWay(s, lens, slots[j], frames[j], image, ClockOf(clock, j));
      CarriesOffset(frames[j], slots[j], image, ClockOf(clock, j));
    }
    forall j | 0 < j < |slots| ensures slots[j].offset == slots[j - 1].offset + slots[j - 1].length {
      assert Offset(segs, j) == Offset(segs, j - 1) + segs[j - 1];
    }
  }

  lemma {:induction false} CarriesOffset(f: Packet, slot: Slot, image: seq<byte>, clock: Option<Clock>)
    requires Carries(f, slot, image, clock)
    ensures clock.None? ==> slot.dcoffset == 0
  {
  }

  /** One whole cycle with a network that answers every frame it delivers. */
  method Exchange(master: Master, group: Group, hasdc: bool, configadr: uint16, network: Network, polls: nat)
      returns (wkc: int, ghost frames: seq<Packet>, ghost slots: seq<Slot>)
    requires master.Ready() && master.pushed == 0 && master.pulled == 0
    requires forall i :: 0 <= i < EC_MAXBUF ==> master.stack.rxbufstat[i] == EC_BUF_EMPTY
    requires forall i :: 0 <= i < EC_MAXBUF ==> |master.stack.rxbuf[i]| == EC_BUFSIZE
    requires Sendable(group.IOsegment[..], group.nsegments, ImageSize(group)) && ImageSize(group) <= master.iomap.Length
    requires group as object !in master.Footprint() && group.IOsegment as object !in master.Footprint()
    requires Faithful(network) && forall fs :: |network.schedule(fs)| <= polls
    modifies master.Footprint()
    ensures master.Ready() && master.pushed == 0 && master.pulled == 0
    ensures master.stack.sent == old(master.stack.sent) + frames && |frames| == |slots|
    ensures ExchangeDone(Cleared(old(master.iomap[..]), group.Obytes + group.Ibytes, group.mbxstatuslength),
                         master.iomap[..], slots, frames, network,
                         if hasdc then Some(Clock(configadr, old(master.DCtime))) else None, ImageSize(group))
    ensures wkc == CycleWkc(slots, frames, network)
    ensures master.DCtime == CycleTime(slots, frames, network, old(master.DCtime))
    ensures var before := Cleared(old(master.iomap[..]), group.Obytes + group.Ibytes, group.mbxstatuslength);
            var clock := if hasdc then Some(Clock(configadr, old(master.DCtime))) else None;
            && ImageOnWire(frames, slots, group.IOsegment[..group.nsegments], before, clock)
            && CycleOnWire(before, master.iomap[..], frames, network, clock, ImageSize(group), wkc,
                           old(master.DCtime), master.DCtime)
    ensures forall i :: 0 <= i < EC_MAXBUF ==> master.stack.rxbufstat[i] == EC_BUF_EMPTY
  {
    hide Progress;
    hide Faithful;
    hide CycleTime;
    hide IsFree;
    hide ExchangeDone;
    hide ImageOnWire;
    hide CycleOnWire;
    hide CycleWkc;
    hide ReceiveTo;
    hide Valid;
    hide Cleared;
    hide Offset;
    var sent, n := 0, |master.stack.sent|;
    ghost var start := master.lastidx;
    ghost var clock := if hasdc then Some(Clock(configadr, master.DCtime)) else None;
    sent, frames := master.SendProcessData(group, hasdc, configadr);
    slots := master.idxstack[..master.pushed];
    assert master.stack.sent[n..] == frames;
    ghost var segs := group.IOsegment[..group.nsegments];
    ExchangeIsExact(master.stack.View(), master.txbuflength[..], slots, frames, network, segs, master.iomap[..],
                    clock, start, master.DCtime, polls);
    master.stack.arrivals := network.schedule(master.stack.sent[n..]);
    wkc := master.ReceiveProcessData(polls);
  }

  // From the mapping to the exchange

  lemma {:induction false} OffsetIsSum(segs: seq<nat>, k: nat)
    requires k <= |segs|
    ensures Offset(segs, k) == Sum(segs[..k])
  {
    if k > 0 {
      OffsetIsSum(segs, k - 1);
      assert segs[..k] == segs[..k - 1] + [segs[k - 1]];
      SumConcat(segs[..k - 1], [segs[k - 1]]);
      assert Sum([segs[k - 1]]) == segs[k - 1];
    }
  }

  /** What mapping a group leaves can be sent, if there are not more segments than buffers. */
  lemma {:induction false} MappedIsSendable(slaves: seq<IoSlave>, packed: bool, IOsegment: seq<nat>)
    requires |slaves| >= 1 && GroupFits(slaves)
    requires var n := |ImageOf(slaves, packed).segments|;
             n <= EC_MAXBUF && n <= |IOsegment| && IOsegment[..n] == ImageOf(slaves, packed).segments
    ensures var image := ImageOf(slaves, packed);
            Sendable(IOsegment, |image.segments|, image.Obytes + image.Ibytes + |image.mbxstatus|)
  {
    hide ImageOf;
    hide GroupFits;
    var segs := ImageOf(slaves, packed).segments;
    SegmentsCoverImage(slaves, packed);
    OffsetIsSum(segs, |segs|);
    assert segs[..|segs|] == segs;
    forall k | 0 <= k < |segs| ensures IOsegment[k] <= EC_MAXLRWDATA - (if k == 0 then EC_FIRSTDCDATAGRAM else 0) {
      SegmentsFitFrames(slaves, packed, k);
      assert IOsegment[k] == segs[k];
    }
    hide Sum;
    hide Offset;
  }

  /** Maps group 0, then runs one cycle of it: whatever the slaves are, and in whatever order the
      answers arrive, the image that was mapped is the image that is exchanged. */
  method MapAndExchange(slavelist: array<IoSlave>, packedMode: bool, master: Master, group: Group,
                        hasdc: bool, configadr: uint16, network: Network, polls: nat)
      returns (wkc: int, ghost frames: seq<Packet>, ghost slots: seq<Slot>)
    requires group.Valid() && slavelist.Length >= 2 && GroupFits(slavelist[..])
    requires group.mbxstatuslength + |ImageOf(slavelist[..], packedMode).mbxstatus| <= group.mbxstatuslookup.Length
    requires |ImageOf(slavelist[..], packedMode).segments| <= EC_MAXBUF
    requires var image := ImageOf(slavelist[..], packedMode);
             image.Obytes + image.Ibytes + |image.mbxstatus| <= master.iomap.Length
    requires group.IOsegment as object != slavelist && group.mbxstatuslookup as object != slavelist
    requires slavelist as object !in master.Footprint() && group as object !in master.Footprint()
    requires group.IOsegment as object !in master.Footprint() && group.mbxstatuslookup as object !in master.Footprint()
    requires master.Ready() && master.pushed == 0 && master.pulled == 0
    requires forall i :: 0 <= i < EC_MAXBUF ==> master.stack.rxbufstat[i] == EC_BUF_EMPTY
    requires forall i :: 0 <= i < EC_MAXBUF ==> |master.stack.rxbuf[i]| == EC_BUFSIZE
    requires Faithful(network) && forall fs :: |network.schedule(fs)| <= polls
    modifies group, slavelist, group.IOsegment, group.mbxstatuslookup
    modifies master.Footprint()
    ensures group.Records(ImageOf(old(slavelist[..]), packedMode))
    ensures slavelist[..] == FinalList(old(slavelist[..]), packedMode)
    ensures forall k :: 1 <= k < slavelist.Length && NotMapped(old(slavelist[k])) ==>
      ServedAsPointed(old(slavelist[k]), slavelist[k])
    ensures (forall k :: 1 <= k < slavelist.Length ==> NotMapped(old(slavelist[k]))) ==>
      OwnersApart(old(slavelist[..]), slavelist[..], ImageSize(group))
    ensures group.mbxstatuslookup[..] == Spliced(old(group.mbxstatuslookup[..]), old(group.mbxstatuslength),
                                                 ImageOf(old(slavelist[..]), packedMode).mbxstatus)
    ensures ExchangeDone(Cleared(old(master.iomap[..]), group.Obytes + group.Ibytes, group.mbxstatuslength),
                         master.iomap[..], slots, frames, network,
                         if hasdc then Some(Clock(configadr, old(master.DCtime))) else None, ImageSize(group))
    ensures var before := Cleared(old(master.iomap[..]), group.Obytes + group.Ibytes, group.mbxstatuslength);
            var clock := if hasdc then Some(Clock(configadr, old(master.DCtime))) else None;
            && ImageOnWire(frames, slots, ImageOf(old(slavelist[..]), packedMode).segments, before, clock)
            && CycleOnWire(before, master.iomap[..], frames, network, clock, ImageSize(group), wkc,
                           old(master.DCtime), master.DCtime)
    ensures |frames| == |slots| && wkc == CycleWkc(slots, frames, network)
    ensures master.DCtime == CycleTime(slots, frames, network, old(master.DCtime))
    ensures forall i :: 0 <= i < EC_MAXBUF ==> master.stack.rxbufstat[i] == EC_BUF_EMPTY
  {
    hide CycleTime;
    hide ImageOf;
    hide FinalList;
    hide ServedAsPointed;
    hide OwnersApart;
    hide NotMapped;
    hide GroupFits;
    hide GroupPacker;
    hide ExchangeDone;
    hide ImageOnWire;
    hide CycleOnWire;
    hide Faithful;
    hide CycleWkc;
    hide Sendable;
    ghost var slaves := slavelist[..];
    SegmentsOfPacker(slaves, packedMode);
    var size := group.MapGroup(slavelist, packedMode);
    MappedIsSendable(slaves, packedMode, group.IOsegment[..]);
    wkc, frames, slots := Exchange(master, group, hasdc, configadr, network, polls);
    SlavesAreServed(slaves, packedMode);
  }

  lemma {:induction false} SlavesAreServed(slaves: seq<IoSlave>, packed: bool)
    requires |slaves| >= 1 && GroupFits(slaves)
    ensures forall k :: 1 <= k < |slaves| && NotMapped(slaves[k]) ==>
      ServedAsPointed(slaves[k], FinalList(slaves, packed)[k])
    ensures (forall k :: 1 <= k < |slaves| ==> NotMapped(slaves[k])) ==>
      var image := ImageOf(slaves, packed);
      OwnersApart(slaves, FinalList(slaves, packed), image.Obytes + image.Ibytes + |image.mbxstatus|)
  {
    hide NotMapped;
    hide OwnersApart;
    hide ImageOf;
    if forall k :: 1 <= k < |slaves| ==> NotMapped(slaves[k]) {
      MappedApart(slaves, packed);
    }
    hide ServedAsPointed;
    hide FinalList;
    hide GroupFits;
    forall k | 1 <= k < |slaves| && NotMapped(slaves[k])
      ensures ServedAsPointed(slaves[k], FinalList(slaves, packed)[k])
    {
      MappedIsServed(slaves, packed, k);
    }
  }

  lemma {:induction false} SegmentsOfPacker(slaves: seq<IoSlave>, packed: bool)
    requires |slaves| >= 1 && GroupFits(slaves)
    ensures |ImageOf(slaves, packed).segments| == |GroupPacker(slaves, packed).closed| + 1
  {
    hide GroupPacker;
    hide GroupFits;
    hide IoList;
    hide StatusSlaves;
    hide StatusWkc;
    hide OutBytes;
    hide InBytes;
    hide OutPacker;
    hide InPacker;
  }

  // Bit by bit

  /** What the contract of `MapAndExchange` means for an output bit of a slave: exactly one frame brings it,
      with its value in the image, the slave takes it through exactly one FMMU, and no other slave does. */
  lemma {:induction false} OutputBitArrives(
    before: seq<IoSlave>, now: seq<IoSlave>, frames: seq<Packet>, image: seq<byte>, size: nat, k: nat, b: nat)
    requires |before| == |now| && 1 <= k < |now| && OwnersApart(before, now, size) && ImageCarried(frames, image, size)
    requires forall j :: 1 <= j < |now| ==> ServedAsPointed(before[j], now[j])
    requires HasData(before[k], now[k], Output, b)
    ensures b / 8 < size <= |image| && CarriedAs(frames, b / 8, image[b / 8])
    ensures forall j :: 1 <= j < |now| ==>
      before[j].FMMUunused <= |now[j].FMMU| &&
      if j == k then ServedOnce(now[j].FMMU[before[j].FMMUunused..], 2, b)
      else NotServed(now[j].FMMU[before[j].FMMUunused..], 2, b)
  {
    hide ServedOnce;
    hide NotServed;
    hide HasBit;
    hide CarriedAs;
    hide NotCarried;
    assert b < 8 * size;
    forall j | 1 <= j < |now|
      ensures before[j].FMMUunused <= |now[j].FMMU|
      ensures if j == k then ServedOnce(now[j].FMMU[before[j].FMMUunused..], 2, b)
              else NotServed(now[j].FMMU[before[j].FMMUunused..], 2, b)
    {
      assert ServedAsPointed(before[j], now[j]);
      assert BitServed(before[j], now[j], now[j].FMMU[before[j].FMMUunused..], b);
      assert HasData(before[j], now[j], Output, b) ==> j == k;
    }
  }

  /** And for an input bit: the slave gives it through exactly one FMMU, into exactly one frame; if the answer
      to that frame came, the byte in the image is the one that came back at this place. */
  lemma {:induction false} InputBitReturns(
    before: seq<IoSlave>, now: seq<IoSlave>, frames: seq<Packet>, answers: seq<Packet>, came: seq<bool>,
    image: seq<byte>, after: seq<byte>, size: nat, k: nat, b: nat) returns (f: nat)
    requires |before| == |now| && 1 <= k < |now| && OwnersApart(before, now, size) && ImageCarried(frames, image, size)
    requires ServedAsPointed(before[k], now[k]) && ImageReturned(image, after, frames, answers, came, size)
    requires HasData(before[k], now[k], Input, b)
    ensures before[k].FMMUunused <= |now[k].FMMU| && ServedOnce(now[k].FMMU[before[k].FMMUunused..], 1, b)
    ensures f < |frames| == |answers| == |came| && CarriesByte(frames[f], b / 8)
    ensures forall j :: 0 <= j < |frames| && j != f ==> !CarriesByte(frames[j], b / 8)
    ensures |answers[f]| == |frames[f]| && b / 8 < |after| <= |image|
    ensures after[b / 8] == if came[f] then answers[f][PlaceOf(frames[f], b / 8)] else image[b / 8]
  {
    hide ServedOnce;
    hide NotServed;
    hide HasBit;
    hide CarriesByte;
    hide PlaceOf;
    assert b < 8 * size;
    assert BitServed(before[k], now[k], now[k].FMMU[before[k].FMMUunused..], b);
    assert CarriedAs(frames, b / 8, image[b / 8]);
    f :| 0 <= f < |frames| && OnlyFrame(frames, f, b / 8, image[b / 8]);
    assert FrameReturned(image, after, frames[f], answers[f], came[f]);
    assert ByteReturned(image, after, frames[f], answers[f], came[f], b / 8);
  }
}
