/** The cyclic exchange of process data (ec_main.c): the image is sent in segments, one frame
    for each, and every answer is put back where its segment came from. */
module ProcessData {
  import opened EcTypes
  import opened Datagram
  import opened Port

  const EC_CMDOFFSET: nat := 2
  const EC_CMD_LWR: byte := 11

  /** One entry of the index stack: the frame that carries bytes [offset, offset + length) of
      the image, and where its DC time is, if it has one. */
  datatype Slot = Slot(idx: nat, offset: nat, length: nat, dcoffset: nat)

  /** What has been collected: the state of the port, the image, the working counter. */
  datatype Gathered = Gathered(port: StackState, image: seq<byte>, wkc: int, valid: bool, DCtime: seq<byte>)

  ghost predicate SlotFits(slot: Slot, image: seq<byte>) {
    && slot.idx < EC_MAXBUF && slot.offset + slot.length <= |image|
    && EC_HEADERSIZE + slot.length + EC_WKCSIZE <= EC_BUFSIZE && slot.dcoffset + 8 <= EC_BUFSIZE
  }

  /** Puts one received frame back. In the frame with the DC time only the first working counter
      belongs to process data; outputs count twice, as they do in a combined read and write. */
  function Unpack(g: Gathered, rx: seq<byte>, slot: Slot, wkc2: int): (r: Gathered)
    requires SlotFits(slot, g.image) && |rx| == EC_BUFSIZE
    ensures |r.image| == |g.image| && r.port == g.port
  {
    var com := rx[EC_CMDOFFSET];
    var data := rx[EC_HEADERSIZE..EC_HEADERSIZE + slot.length];
    var first := Word(rx, EC_HEADERSIZE + slot.length) as int;
    var time := rx[slot.dcoffset..slot.dcoffset + 8];
    if com == EC_CMD_LRD || com == EC_CMD_LRW then
      if slot.dcoffset > 0 then
        g.(image := Put(g.image, slot.offset, data), wkc := first, DCtime := time, valid := true)
      else g.(image := Put(g.image, slot.offset, data), wkc := g.wkc + wkc2, valid := true)
    else if com == EC_CMD_LWR then
      if slot.dcoffset > 0 then g.(wkc := first * 2, DCtime := time, valid := true)
      else g.(wkc := g.wkc + wkc2 * 2, valid := true)
    else g
  }

  /** What each kind of answer changes, byte by byte: a read (command 10) and a read and write (12) bring
      their data into the image and count once, a write (11) brings none and counts twice, and
      anything else changes nothing. With the DC time in the frame, only the counter behind the data of
      the first datagram counts. */
  lemma {:induction false} UnpackIs(g: Gathered, rx: seq<byte>, slot: Slot, wkc2: int)
    requires SlotFits(slot, g.image) && |rx| == EC_BUFSIZE
    ensures var r := Unpack(g, rx, slot, wkc2);
            var first := rx[12 + slot.length] as int + 0x100 * (rx[13 + slot.length] as int);
            var own := if slot.dcoffset > 0 then first else wkc2;
            && (r.valid <==> g.valid || rx[2] in {10, 11, 12})
            && (forall i :: 0 <= i < |g.image| ==>
                  r.image[i] == if rx[2] in {10, 12} && slot.offset <= i < slot.offset + slot.length
                                then rx[12 + i - slot.offset] else g.image[i])
            && (rx[2] in {10, 12} ==> r.wkc == own + (if slot.dcoffset > 0 then 0 else g.wkc))
            && (rx[2] == 11 ==> r.wkc == 2 * own + (if slot.dcoffset > 0 then 0 else g.wkc))
            && (rx[2] !in {10, 11, 12} ==> r == g)
            && r.DCtime == (if rx[2] in {10, 11, 12} && slot.dcoffset > 0 then rx[slot.dcoffset..slot.dcoffset + 8]
                            else g.DCtime)
  {
  }

  /** Waits for one frame, takes its data if it came, and frees its buffer. */
  function ReceiveOne(g: Gathered, lens: seq<nat>, slot: Slot, polls: nat): (r: Gathered)
    requires Valid(g.port, lens) && SlotFits(slot, g.image)
    ensures Valid(r.port, lens) && |r.image| == |g.image|
  {
    var (s, wkc2) := Await(g.port, lens, slot.idx, polls);
    var g1 := if wkc2 > EC_NOFRAME then Unpack(g, s.rxbuf[slot.idx], slot, wkc2) else g;
    g1.(port := SetStat(s, slot.idx, EC_BUF_EMPTY))
  }

  ghost predicate SlotsFit(slots: seq<Slot>, image: seq<byte>) {
    forall k :: 0 <= k < |slots| ==> SlotFits(slots[k], image)
  }

  /** What is collected after the first `n` frames. */
  ghost function ReceiveTo(g: Gathered, lens: seq<nat>, slots: seq<Slot>, polls: nat, n: nat): (r: Gathered)
    requires Valid(g.port, lens) && SlotsFit(slots, g.image) && n <= |slots|
    ensures Valid(r.port, lens) && |r.image| == |g.image|
  {
    if n == 0 then g else ReceiveOne(ReceiveTo(g, lens, slots, polls, n - 1), lens, slots[n - 1], polls)
  }

  /** Whether frame `k` was there in time. */
  ghost predicate Got(g: Gathered, lens: seq<nat>, slots: seq<Slot>, polls: nat, k: nat)
    requires Valid(g.port, lens) && SlotsFit(slots, g.image) && k < |slots|
  {
    Await(ReceiveTo(g, lens, slots, polls, k).port, lens, slots[k].idx, polls).1 > EC_NOFRAME
  }

  // Answers

  /** The answer to the LRW frame of the slot. The network may change data, working counters and
      addresses, but not the headers that tell where they are. */
  ghost predicate LrwAnswer(p: Packet, lens: seq<nat>, slot: Slot) {
    && Answer(p, lens, slot.idx) && WkcPos(p[14..]) + 16 <= lens[slot.idx]
    && ETH_HEADERSIZE + EC_HEADERSIZE + slot.length + EC_WKCSIZE <= lens[slot.idx] && p[16] == EC_CMD_LRW
    && (if slot.dcoffset == 0 then WkcPos(p[14..]) == EC_HEADERSIZE + slot.length
        else slot.dcoffset + 8 + ETH_HEADERSIZE <= lens[slot.idx])
  }

  /** The process data of an answer, and their working counter. */
  function DataOf(p: Packet, slot: Slot): (data: seq<byte>)
    requires ETH_HEADERSIZE + EC_HEADERSIZE + slot.length + EC_WKCSIZE <= |p|
    ensures |data| == slot.length
  {
    p[ETH_HEADERSIZE + EC_HEADERSIZE..ETH_HEADERSIZE + EC_HEADERSIZE + slot.length]
  }

  function WkcOf(p: Packet, slot: Slot): uint16 {
    if ETH_HEADERSIZE + EC_HEADERSIZE + slot.length + EC_WKCSIZE > |p| then 0
    else Word(p, ETH_HEADERSIZE + EC_HEADERSIZE + slot.length)
  }

  /** The DC time in an answer that carries it. */
  function TimeOf(p: Packet, slot: Slot): seq<byte> {
    if ETH_HEADERSIZE + slot.dcoffset + 8 > |p| then []
    else p[ETH_HEADERSIZE + slot.dcoffset..ETH_HEADERSIZE + slot.dcoffset + 8]
  }

  ghost predicate Expects(s: StackState, lens: seq<nat>, slot: Slot, p: Packet)
    requires Valid(s, lens)
  {
    LrwAnswer(p, lens, slot) && Pending(s, lens, slot.idx, p) && OnlyAnswer(s.arrivals, slot.idx, p)
  }

  ghost predicate Distinct(slots: seq<Slot>) {
    forall j, k :: 0 <= j < k < |slots| ==> slots[j].idx != slots[k].idx
  }

  /** Slots cover the image one behind the other, and only the first may carry the DC time. */
  ghost predicate Contiguous(slots: seq<Slot>) {
    && (forall k :: 0 < k < |slots| ==> slots[k].offset == slots[k - 1].offset + slots[k - 1].length)
    && (forall k :: 0 < k < |slots| ==> slots[k].dcoffset == 0)
  }

  /** The image with the data of the first `n` answers put in place, if they came. */
  ghost function Merged(
    image: seq<byte>, slots: seq<Slot>, answers: seq<Packet>, got: seq<bool>, lens: seq<nat>, n: nat): (r: seq<byte>)
    requires n <= |slots| == |answers| == |got| && SlotsFit(slots, image)
    requires forall k :: 0 <= k < |slots| ==> LrwAnswer(answers[k], lens, slots[k])
    ensures |r| == |image|
  {
    if n == 0 then image
    else
      var r := Merged(image, slots, answers, got, lens, n - 1);
      if got[n - 1] then Put(r, slots[n - 1].offset, DataOf(answers[n - 1], slots[n - 1])) else r
  }

  /** The working counters of the process data in the first `n` answers that came. */
  function WkcSum(slots: seq<Slot>, answers: seq<Packet>, got: seq<bool>, n: nat): int
    requires n <= |slots| == |answers| == |got|
  {
    if n == 0 then 0
    else
      WkcSum(slots, answers, got, n - 1)
      + (if got[n - 1] then WkcOf(answers[n - 1], slots[n - 1]) as int else 0)
  }

  /** Taking one answer: its data and working counter are added, its buffer is free, and the
      answers that are still expected stay so. */
  lemma {:induction false} ReceiveOneTakes(g: Gathered, lens: seq<nat>, slot: Slot, p: Packet, polls: nat)
    requires Valid(g.port, lens) && SlotFits(slot, g.image) && Expects(g.port, lens, slot, p)
    requires slot.dcoffset > 0 ==> g.wkc == 0
    ensures var r := ReceiveOne(g, lens, slot, polls);
            var got := Await(g.port, lens, slot.idx, polls).1 > EC_NOFRAME;
            && r.image == (if got then Put(g.image, slot.offset, DataOf(p, slot)) else g.image)
            && r.wkc == g.wkc + (if got then WkcOf(p, slot) as int else 0)
            && r.valid == (g.valid || got)
            && r.DCtime == (if got && slot.dcoffset > 0 then TimeOf(p, slot) else g.DCtime)
            && r.port.rxbufstat[slot.idx] == EC_BUF_EMPTY
            && (polls >= |g.port.arrivals| ==> (got <==> Coming(g.port, slot.idx, p)))
  {
    hide Await;
    hide Pending;
    hide OnlyAnswer;
    hide Coming;
    hide Put;
    WaitTakes(g.port, lens, slot.idx, p, polls);
    var (s, wkc2) := Await(g.port, lens, slot.idx, polls);
    if wkc2 > EC_NOFRAME {
      SameBytes(s.rxbuf[slot.idx], p, slot, lens[slot.idx]);
      if slot.dcoffset == 0 {
        PositionOfWkc(p, slot);
      } else {
        SameTime(s.rxbuf[slot.idx], p, slot, lens[slot.idx]);
      }
    }
  }

  lemma {:induction false} SameBytes(rx: seq<byte>, p: Packet, slot: Slot, n: nat)
    requires |rx| == EC_BUFSIZE && 18 <= n <= |p| <= EC_BUFSIZE && rx[..n - ETH_HEADERSIZE] == p[ETH_HEADERSIZE..n]
    requires ETH_HEADERSIZE + EC_HEADERSIZE + slot.length + EC_WKCSIZE <= n
    ensures rx[EC_CMDOFFSET] == p[16]
    ensures rx[EC_HEADERSIZE..EC_HEADERSIZE + slot.length] == DataOf(p, slot)
    ensures Word(rx, EC_HEADERSIZE + slot.length) == WkcOf(p, slot)
  {
    var q := p[ETH_HEADERSIZE..n];
    forall i | 0 <= i < |q| ensures rx[i] == p[i + 14] {
      assert rx[..|q|][i] == q[i];
    }
  }

  lemma {:induction false} SameTime(rx: seq<byte>, p: Packet, slot: Slot, n: nat)
    requires |rx| == EC_BUFSIZE && 18 <= n <= |p| <= EC_BUFSIZE && rx[..n - ETH_HEADERSIZE] == p[ETH_HEADERSIZE..n]
    requires ETH_HEADERSIZE + slot.dcoffset + 8 <= n
    ensures rx[slot.dcoffset..slot.dcoffset + 8] == TimeOf(p, slot)
  {
    var q := p[ETH_HEADERSIZE..n];
    var a, b := rx[slot.dcoffset..slot.dcoffset + 8], TimeOf(p, slot);
    forall i | 0 <= i < 8 ensures a[i] == b[i] {
      assert rx[..|q|][slot.dcoffset + i] == q[slot.dcoffset + i];
    }
  }

  lemma {:induction false} PositionOfWkc(p: Packet, slot: Slot)
    requires |p| <= EC_BUFSIZE && ETH_HEADERSIZE + EC_HEADERSIZE + slot.length + EC_WKCSIZE <= |p|
    requires WkcPos(p[14..]) == EC_HEADERSIZE + slot.length
    ensures LastWkc(p[14..]) == WkcOf(p, slot)
  {
  }

  lemma {:induction false} ReceiveOneKeeps(g: Gathered, lens: seq<nat>, slot: Slot, other: Slot, p: Packet, polls: nat)
    requires Valid(g.port, lens) && SlotFits(slot, g.image) && Expects(g.port, lens, other, p) && slot.idx != other.idx
    ensures var r := ReceiveOne(g, lens, slot, polls);
            && Expects(r.port, lens, other, p)
            && (Coming(r.port, other.idx, p) <==> Coming(g.port, other.idx, p))
            && |r.port.arrivals| <= |g.port.arrivals|
  {
    hide Await;
    WaitKeepsOther(g.port, lens, slot.idx, other.idx, p, polls);
    hide OnlyAnswer;
    hide Answer;
    hide Unpack;
  }

  lemma {:induction false} EmptyStays(s: StackState, lens: seq<nat>, idx: nat, j: nat, polls: nat)
    requires Valid(s, lens) && idx < EC_MAXBUF && j < EC_MAXBUF && j != idx && s.rxbufstat[j] == EC_BUF_EMPTY
    ensures Await(s, lens, idx, polls).0.rxbufstat[j] == EC_BUF_EMPTY
    decreases polls
  {
    var (s1, wkc) := Fetch(s, lens, idx);
    assert s1.rxbufstat[j] == EC_BUF_EMPTY;
    hide Fetch;
    if wkc <= EC_NOFRAME && polls > 0 {
      EmptyStays(s1, lens, idx, j, polls - 1);
    }
  }

  ghost predicate AllExpected(g: Gathered, lens: seq<nat>, slots: seq<Slot>, answers: seq<Packet>) {
    && Valid(g.port, lens) && SlotsFit(slots, g.image) && |answers| == |slots| && Distinct(slots)
    && (forall k :: 0 < k < |slots| ==> slots[k].dcoffset == 0)
    && (forall k :: 0 <= k < |slots| ==> Expects(g.port, lens, slots[k], answers[k]))
  }

  /** Until its turn, an answer is neither lost nor mixed up, whatever arrives in between. */
  lemma {:induction false} AnswerKept(
    g: Gathered, lens: seq<nat>, slots: seq<Slot>, answers: seq<Packet>, polls: nat, n: nat, k: nat)
    requires AllExpected(g, lens, slots, answers) && n <= k < |slots|
    ensures var r := ReceiveTo(g, lens, slots, polls, n);
            && Expects(r.port, lens, slots[k], answers[k])
            && (Coming(r.port, slots[k].idx, answers[k]) <==> Coming(g.port, slots[k].idx, answers[k]))
            && |r.port.arrivals| <= |g.port.arrivals|
  {
    hide Expects;
    hide Coming;
    hide ReceiveOne;
    if n > 0 {
      AnswerKept(g, lens, slots, answers, polls, n - 1, k);
      ReceiveOneKeeps(ReceiveTo(g, lens, slots, polls, n - 1), lens, slots[n - 1], slots[k], answers[k], polls);
    }
  }

  lemma {:induction false} ExpectedAreAnswers(g: Gathered, lens: seq<nat>, slots: seq<Slot>, answers: seq<Packet>)
    requires AllExpected(g, lens, slots, answers)
    ensures forall k :: 0 <= k < |slots| ==> LrwAnswer(answers[k], lens, slots[k])
  {
    hide LrwAnswer;
    hide Pending;
    hide OnlyAnswer;
    hide SlotFits;
  }

  ghost function GotAll(g: Gathered, lens: seq<nat>, slots: seq<Slot>, polls: nat): (got: seq<bool>)
    requires Valid(g.port, lens) && SlotsFit(slots, g.image)
    ensures |got| == |slots|
    ensures forall k :: 0 <= k < |slots| ==> got[k] == Got(g, lens, slots, polls, k)
  {
    seq(|slots|, k requires 0 <= k < |slots| => Got(g, lens, slots, polls, k))
  }

  lemma {:induction false} GatherStep(
    g: Gathered, lens: seq<nat>, slots: seq<Slot>, answers: seq<Packet>, polls: nat, n: nat)
    requires AllExpected(g, lens, slots, answers) && n < |slots|
    requires slots[n].dcoffset > 0 ==> ReceiveTo(g, lens, slots, polls, n).wkc == 0
    requires LrwAnswer(answers[n], lens, slots[n])
    ensures var q, r := ReceiveTo(g, lens, slots, polls, n), ReceiveTo(g, lens, slots, polls, n + 1);
            var got, p, slot := Got(g, lens, slots, polls, n), answers[n], slots[n];
            && r.image == (if got then Put(q.image, slot.offset, DataOf(p, slot)) else q.image)
            && r.wkc == q.wkc + (if got then WkcOf(p, slot) as int else 0)
            && r.valid == (q.valid || got)
            && r.DCtime == (if got && slot.dcoffset > 0 then TimeOf(p, slot) else q.DCtime)
  {
    hide ReceiveOne;
    hide Expects;
    hide Put;
    AnswerKept(g, lens, slots, answers, polls, n, n);
    ReceiveOneTakes(ReceiveTo(g, lens, slots, polls, n), lens, slots[n], answers[n], polls);
  }

  /** For every order of arrival, interleaved with whatever else, and every loss: what has been
      collected after `n` frames is exactly what their answers carried. */
  lemma {:induction false} ReceiveGathers(
    g: Gathered, lens: seq<nat>, slots: seq<Slot>, answers: seq<Packet>, polls: nat, n: nat)
    requires AllExpected(g, lens, slots, answers) && n <= |slots| && g.wkc == 0
    ensures forall k :: 0 <= k < |slots| ==> LrwAnswer(answers[k], lens, slots[k])
    ensures var r, got := ReceiveTo(g, lens, slots, polls, n), GotAll(g, lens, slots, polls);
            && r.image == Merged(g.image, slots, answers, got, lens, n)
            && r.wkc == WkcSum(slots, answers, got, n)
            && (r.valid <==> g.valid || true in got[..n])
            && r.DCtime == (if n > 0 && got[0] && slots[0].dcoffset > 0 then TimeOf(answers[0], slots[0]) else g.DCtime)
  {
    hide ReceiveOne;
    hide Expects;
    hide LrwAnswer;
    hide SlotFits;
    hide Put;
    hide Got;
    ExpectedAreAnswers(g, lens, slots, answers);
    if n > 0 {
      var got := GotAll(g, lens, slots, polls);
      ReceiveGathers(g, lens, slots, answers, polls, n - 1);
      assert slots[n - 1].dcoffset > 0 ==> n == 1;
      hide TimeOf;
      GatherStep(g, lens, slots, answers, polls, n - 1);
      assert got[..n] == got[..n - 1] + [got[n - 1]];
      hide AllExpected;
      hide ReceiveTo;
    }
  }

  /** If there is time enough, a frame is taken if and only if its answer comes. */
  lemma {:induction false} GotIffComing(
    g: Gathered, lens: seq<nat>, slots: seq<Slot>, answers: seq<Packet>, polls: nat, k: nat)
    requires AllExpected(g, lens, slots, answers) && k < |slots| && polls >= |g.port.arrivals|
    ensures Got(g, lens, slots, polls, k) <==> Coming(g.port, slots[k].idx, answers[k])
  {
    AnswerKept(g, lens, slots, answers, polls, k, k);
    hide AllExpected;
    hide ReceiveTo;
    hide ReceiveOne;
    hide Coming;
    hide Pending;
    hide OnlyAnswer;
    WaitTakes(ReceiveTo(g, lens, slots, polls, k).port, lens, slots[k].idx, answers[k], polls);
  }

  /** Every buffer that was used is free again. */
  lemma {:induction false} BuffersAreFreed(g: Gathered, lens: seq<nat>, slots: seq<Slot>, polls: nat, n: nat, k: nat)
    requires Valid(g.port, lens) && SlotsFit(slots, g.image) && k < n <= |slots| && Distinct(slots)
    ensures ReceiveTo(g, lens, slots, polls, n).port.rxbufstat[slots[k].idx] == EC_BUF_EMPTY
  {
    hide Await;
    hide Unpack;
    if k < n - 1 {
      BuffersAreFreed(g, lens, slots, polls, n - 1, k);
      EmptyStays(ReceiveTo(g, lens, slots, polls, n - 1).port, lens, slots[n - 1].idx, slots[k].idx, polls);
    }
  }

  /** Byte by byte: a segment whose answer came holds what the answer carried, and one whose
      answer did not come is as it was. */
  lemma {:induction false} MergedByte(
    image: seq<byte>, slots: seq<Slot>, answers: seq<Packet>, got: seq<bool>, lens: seq<nat>, n: nat, k: nat, j: nat)
    requires n <= |slots| == |answers| == |got| && SlotsFit(slots, image) && Contiguous(slots)
    requires forall k :: 0 <= k < |slots| ==> LrwAnswer(answers[k], lens, slots[k])
    requires k < |slots| && j < slots[k].length
    ensures Merged(image, slots, answers, got, lens, n)[slots[k].offset + j]
            == if k < n && got[k] then DataOf(answers[k], slots[k])[j] else image[slots[k].offset + j]
  {
    hide LrwAnswer;
    hide DataOf;
    if n > 0 {
      MergedByte(image, slots, answers, got, lens, n - 1, k, j);
      SlotsApart(slots, n - 1, k);
    }
  }

  lemma {:induction false} SlotsApart(slots: seq<Slot>, i: nat, k: nat)
    requires Contiguous(slots) && i < |slots| && k < |slots|
    ensures i < k ==> slots[i].offset + slots[i].length <= slots[k].offset
    ensures k < i ==> slots[k].offset + slots[k].length <= slots[i].offset
    decreases if i < k then k - i else i - k
  {
    if i < k {
      SlotsApart(slots, i, k - 1);
    } else if k < i {
      SlotsApart(slots, i - 1, k);
    }
  }

  lemma {:induction false} MergedElsewhere(
    image: seq<byte>, slots: seq<Slot>, answers: seq<Packet>, got: seq<bool>, lens: seq<nat>, n: nat, i: nat)
    requires n <= |slots| == |answers| == |got| && SlotsFit(slots, image)
    requires forall k :: 0 <= k < |slots| ==> LrwAnswer(answers[k], lens, slots[k])
    requires i < |image| && forall k :: 0 <= k < n ==> slots[k].offset + slots[k].length <= i
    ensures Merged(image, slots, answers, got, lens, n)[i] == image[i]
  {
    hide LrwAnswer;
    hide DataOf;
    if n > 0 {
      MergedElsewhere(image, slots, answers, got, lens, n - 1, i);
    }
  }

  /** Buffers that are not used by the frames, and are empty, stay empty. */
  lemma {:induction false} OthersStayEmpty(g: Gathered, lens: seq<nat>, slots: seq<Slot>, polls: nat, n: nat, i: nat)
    requires Valid(g.port, lens) && SlotsFit(slots, g.image) && n <= |slots| && i < EC_MAXBUF
    requires g.port.rxbufstat[i] == EC_BUF_EMPTY && forall k :: 0 <= k < n ==> slots[k].idx != i
    ensures ReceiveTo(g, lens, slots, polls, n).port.rxbufstat[i] == EC_BUF_EMPTY
  {
    hide Await;
    hide Unpack;
    if n > 0 {
      OthersStayEmpty(g, lens, slots, polls, n - 1, i);
      EmptyStays(ReceiveTo(g, lens, slots, polls, n - 1).port, lens, slots[n - 1].idx, i, polls);
    }
  }
}
