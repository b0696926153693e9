/** The frames of the process data as they are on the wire, byte by byte. */
module ProcessWire {
  import opened EcTypes
  import opened Datagram
  import opened Port
  import opened ProcessData
  import opened SegmentFrames

  /** At byte `c`: the datagram that reads the DC system time of the reference clock and writes it to
      all other clocks (command FRMW, register 0x0910, eight bytes). */
  ghost predicate ClockOnWire(f: Packet, c: nat, idx: nat, clock: Clock) {
    && |f| == c + 20
    && f[c] == 14 && f[c + 1] as int == idx
    && f[c + 2] as int + 0x100 * (f[c + 3] as int) == clock.configadr
    && f[c + 4] == 0x10 && f[c + 5] == 0x09
    && f[c + 6] == 8 && f[c + 7] == 0
    && f[c + 10..c + 18] == clock.time
    && f[c + 18] == f[c + 19] == 0
  }

  /** A frame of EtherType 0x88a4 that holds one LRW datagram with these data for this logical
      address, and behind it the one for the clock if there is a clock, and nothing else. */
  ghost predicate LrwOnWire(f: Packet, idx: nat, logAdr: nat, data: seq<byte>, clock: Option<Clock>) {
    var n := |data|;
    && |f| == 28 + n + (if clock.Some? then 20 else 0) <= 1518
    && f[12] == 0x88 && f[13] == 0xa4
    && f[14] as int + 0x100 * (f[15] as int) == 0x1000 + |f| - 16
    && f[16] == 12 && f[17] as int == idx
    && LogicalAddress(f) == logAdr
    && f[22] as int + 0x100 * (f[23] as int) == n + (if clock.Some? then 0x8000 else 0)
    && f[26..26 + n] == data
    && f[26 + n] == f[27 + n] == 0
    && (clock.Some? ==> ClockOnWire(f, 28 + n, idx, clock.value))
  }

  /** The logical address in the first datagram of a frame. */
  function LogicalAddress(f: Packet): nat {
    if |f| < 22 then 0
    else f[18] as int + 0x100 * (f[19] as int) + 0x1_0000 * (f[20] as int) + 0x100_0000 * (f[21] as int)
  }

  /** The length of the data in the first datagram of a frame. */
  function DataLength(f: Packet): nat {
    if |f| < 24 then 0 else (f[22] as int + 0x100 * (f[23] as int)) % 0x800
  }

  /** A logical read and write that covers byte `x` of the logical address space. */
  predicate CarriesByte(f: Packet, x: nat) {
    |f| >= 28 + DataLength(f) && f[16] == 12 && LogicalAddress(f) <= x < LogicalAddress(f) + DataLength(f)
  }

  /** Where byte `x` of the logical address space is in the frame. */
  function PlaceOf(f: Packet, x: nat): (i: nat)
    requires CarriesByte(f, x)
    ensures i < |f|
  {
    26 + x - LogicalAddress(f)
  }

  lemma {:induction false} DatagramOnWire(f: Packet, p: nat, d: Datagram, follows: bool)
    requires Sits(f, p, d, follows)
    ensures f[p] == d.command && f[p + 1] == d.index
    ensures f[p + 2] as int + 0x100 * (f[p + 3] as int) == d.ADP
    ensures f[p + 4] as int + 0x100 * (f[p + 5] as int) == d.ADO
    ensures f[p + 6] as int + 0x100 * (f[p + 7] as int) == |d.data| + (if follows then 0x8000 else 0)
    ensures f[p + 10..p + 10 + |d.data|] == d.data
    ensures f[p + 10 + |d.data|] as int + 0x100 * (f[p + 11 + |d.data|] as int) == d.wkc
  {
    ParseOne(f, p, d, follows);
  }

  lemma {:induction false} BytesOfWord(lo: byte, hi: byte, w: nat)
    requires lo as int + 0x100 * (hi as int) == w
    ensures hi as int == w / 0x100 && lo as int == w % 0x100
  {
  }

  /** The frame of a segment has these bytes. */
  lemma {:induction false} CarriesOnWire(f: Packet, slot: Slot, image: seq<byte>, clock: Option<Clock>)
    requires Carries(f, slot, image, clock) && slot.offset < 0x1_0000_0000
    ensures LrwOnWire(f, slot.idx, slot.offset, image[slot.offset..slot.offset + slot.length], clock)
  {
    hide ClockOnWire;
    CarriesChain(f, slot, image, clock);
    FrameHeader(f, slot, image, clock);
    LrwDatagram(slot, image, clock);
    var d, n := ChainOf(slot, image, clock)[0], slot.length;
    if clock.Some? {
      ClockIsOnWire(f, 28 + n, slot, image, clock);
    }
    hide Carries;
    hide ChainOf;
    hide Sits;
    FirstOnWire(f, d, clock.Some?, slot.offset);
    hide LogicalAddress;
  }

  lemma {:induction false} FirstOnWire(f: Packet, d: Datagram, follows: bool, logAdr: nat)
    requires Sits(f, 16, d, follows) && d.ADP + 0x1_0000 * d.ADO == logAdr && d.wkc == 0
    ensures 28 + |d.data| <= |f|
    ensures f[16] == d.command && f[17] == d.index && LogicalAddress(f) == logAdr
    ensures f[22] as int + 0x100 * (f[23] as int) == |d.data| + (if follows then 0x8000 else 0)
    ensures f[26..26 + |d.data|] == d.data && f[26 + |d.data|] == f[27 + |d.data|] == 0
  {
    DatagramOnWire(f, 16, d, follows);
    BytesOfWord(f[26 + |d.data|], f[27 + |d.data|], 0);
  }

  lemma {:induction false} CarriesChain(f: Packet, slot: Slot, image: seq<byte>, clock: Option<Clock>)
    requires Carries(f, slot, image, clock)
    ensures var ds := ChainOf(slot, image, clock);
            && |ds| == (if clock.Some? then 2 else 1) && Sits(f, 16, ds[0], clock.Some?)
            && (clock.Some? ==> Sits(f, 28 + slot.length, ds[1], false))
    ensures |f| == 28 + slot.length + (if clock.Some? then 20 else 0) && f[12] == 0x88 && f[13] == 0xa4
  {
    FrameHeader(f, slot, image, clock);
    var ds := ChainOf(slot, image, clock);
    assert Pos(ds, 0) == 16 && Pos(ds, 1) == 28 + slot.length;
    hide Sits;
    hide Pos;
    assert Sits(f, Pos(ds, 0), ds[0], 0 < |ds| - 1);
    assert clock.Some? ==> Sits(f, Pos(ds, 1), ds[1], 1 < |ds| - 1);
  }

  lemma {:induction false} LrwDatagram(slot: Slot, image: seq<byte>, clock: Option<Clock>)
    requires slot.idx < EC_MAXBUF && slot.offset + slot.length <= |image| && slot.offset < 0x1_0000_0000
    ensures var d := ChainOf(slot, image, clock)[0];
            && d.command == 12 && d.index as int == slot.idx && d.wkc == 0
            && d.ADP + 0x1_0000 * d.ADO == slot.offset
            && d.data == image[slot.offset..slot.offset + slot.length]
  {
  }

  lemma {:induction false} ClockIsOnWire(f: Packet, c: nat, slot: Slot, image: seq<byte>, clock: Option<Clock>)
    requires clock.Some? && |clock.value.time| == 8
    requires slot.idx < EC_MAXBUF && slot.offset + slot.length <= |image|
    requires Sits(f, c, ChainOf(slot, image, clock)[1], false) && |f| == c + 20
    ensures ClockOnWire(f, c, slot.idx, clock.value)
  {
    var d := ChainOf(slot, image, clock)[1];
    DatagramOnWire(f, c, d, false);
    hide Sits;
    BytesOfWord(f[c + 4], f[c + 5], 0x0910);
    BytesOfWord(f[c + 6], f[c + 7], 8);
    BytesOfWord(f[c + 18], f[c + 19], 0);
  }

  /** A slave that follows the headers of such a frame reads exactly these datagrams. */
  lemma {:induction false} WireIsRead(f: Packet, idx: byte, logAdr: nat, data: seq<byte>, clock: Option<Clock>)
    requires LrwOnWire(f, idx as nat, logAdr, data, clock) && |f| <= EC_BUFSIZE
    requires clock.Some? ==> |clock.value.time| == 8
    ensures logAdr < 0x1_0000_0000
    ensures ParseFrame(f) == Some(DatagramsRead(idx, logAdr, data, clock))
  {
    var n := |data|;
    var end := 16 + Word(f, 14) as int % 0x1000;
    FrameLength(f);
    assert f[..end] == f;
    assert ParseFrame(f) == ParseChain(f, 16);
    if clock.Some? {
      ClockIsRead(f, 28 + n, idx, clock.value);
    }
    LrwIsRead(f, idx, logAdr, data, clock);
    hide LrwOnWire;
    hide ParseChain;
    hide ParseFrame;
    var d := Datagram(12, idx, logAdr % 0x1_0000, logAdr / 0x1_0000, data, 0);
    assert DatagramsRead(idx, logAdr, data, None) == [d];
  }

  function DatagramsRead(idx: byte, logAdr: nat, data: seq<byte>, clock: Option<Clock>): seq<Datagram>
    requires logAdr < 0x1_0000_0000
  {
    [Datagram(12, idx, logAdr % 0x1_0000, logAdr / 0x1_0000, data, 0)]
    + match clock
      case None => []
      case Some(c) => [Datagram(14, idx, c.configadr, 0x0910, c.time, 0)]
  }

  lemma {:induction false} FrameLength(f: Packet)
    requires 28 <= |f| <= EC_BUFSIZE && f[14] as int + 0x100 * (f[15] as int) == 0x1000 + |f| - 16
    ensures 16 + Word(f, 14) as int % 0x1000 == |f|
  {
  }

  lemma {:induction false} LrwIsRead(f: Packet, idx: byte, logAdr: nat, data: seq<byte>, clock: Option<Clock>)
    requires LrwOnWire(f, idx as nat, logAdr, data, clock) && |f| <= EC_BUFSIZE
    ensures logAdr < 0x1_0000_0000
    ensures var d := Datagram(12, idx, logAdr % 0x1_0000, logAdr / 0x1_0000, data, 0);
            ParseChain(f, 16) == if clock.Some? then Prepend(d, ParseChain(f, 28 + |data|)) else Some([d])
  {
    var n := |data|;
    var w := Word(f, 22) as int;
    assert w == n + (if clock.Some? then 0x8000 else 0);
    assert w % 0x800 == n && (w < 0x8000 <==> clock.None?);
    assert Word(f, 18) == logAdr % 0x1_0000 && Word(f, 20) == logAdr / 0x1_0000;
    assert Word(f, 26 + n) == 0;
    hide ClockOnWire;
  }

  lemma {:induction false} ClockIsRead(f: Packet, c: nat, idx: byte, clock: Clock)
    requires ClockOnWire(f, c, idx as nat, clock) && |clock.time| == 8
    ensures ParseChain(f, c) == Some([Datagram(14, idx, clock.configadr, 0x0910, clock.time, 0)])
  {
    assert Word(f, c + 6) == 8 && Word(f, c + 4) == 0x0910 && Word(f, c + 18) == 0;
  }

  // The image in the frames

  /** Frame `k` is on the wire with segment `k` of the image, at the logical address at which the
      segment begins; the first frame has the clock. */
  ghost predicate ImageOnWire(
    frames: seq<Packet>, slots: seq<Slot>, segs: seq<nat>, image: seq<byte>, clock: Option<Clock>)
  {
    && |frames| == |slots| <= |segs|
    && forall k :: 0 <= k < |frames| ==> SegmentOnWire(frames[k], slots[k].idx, segs, k, image, clock)
  }

  ghost predicate SegmentOnWire(
    f: Packet, idx: nat, segs: seq<nat>, k: nat, image: seq<byte>, clock: Option<Clock>)
    requires k < |segs|
  {
    Offset(segs, k) <= Offset(segs, k + 1) <= |image| &&
    LrwOnWire(f, idx, Offset(segs, k), image[Offset(segs, k)..Offset(segs, k + 1)], if k == 0 then clock else None)
  }

  lemma {:induction false} OffsetBound(segs: seq<nat>, slots: seq<Slot>, image: seq<byte>, k: nat)
    requires k <= |slots| <= |segs|
    requires forall j :: 0 <= j < |slots| ==> slots[j].length == segs[j] && SlotFits(slots[j], image)
    ensures Offset(segs, k) <= 1518 * k
  {
    if k > 0 {
      OffsetBound(segs, slots, image, k - 1);
      assert SlotFits(slots[k - 1], image);
    }
  }

  lemma {:induction false} ProgressCarries(
    s: StackState, lens: seq<nat>, slots: seq<Slot>, frames: seq<Packet>, segs: seq<nat>, image: seq<byte>,
    clock: Option<Clock>, start: nat, n: nat)
    requires Progress(s, lens, slots, frames, segs, image, clock, start, n)
    ensures |frames| == |slots| == n <= |segs|
    ensures forall k :: 0 <= k < n ==>
      && Carries(frames[k], slots[k], image, ClockOf(clock, k)) && slots[k].offset + slots[k].length <= |image|
      && slots[k].offset == Offset(segs, k) < 0x1_0000_0000
      && slots[k].offset + slots[k].length == Offset(segs, k + 1)
  {
    forall k | 0 <= k < n ensures Carries(frames[k], slots[k], image, ClockOf(clock, k)) {
      assert OnTheWay(s, lens, slots[k], frames[k], image, ClockOf(clock, k));
    }
    forall k | 0 <= k < n ensures SlotFits(slots[k], image) {
      assert Carries(frames[k], slots[k], image, ClockOf(clock, k));
    }
    hide Carries;
    hide OnTheWay;
    hide SlotFits;
    forall k | 0 <= k < n ensures Offset(segs, k) < 0x1_0000_0000 {
      OffsetBound(segs, slots, image, k);
    }
    forall k | 0 <= k < n ensures slots[k].offset + slots[k].length <= |image| {
      assert SlotFits(slots[k], image);
    }
  }

  lemma {:induction false} CarriesAt(
    s: StackState, lens: seq<nat>, slots: seq<Slot>, frames: seq<Packet>, segs: seq<nat>, image: seq<byte>,
    clock: Option<Clock>, start: nat, n: nat, k: nat)
    requires Progress(s, lens, slots, frames, segs, image, clock, start, n) && k < n
    ensures |frames| == |slots| == n <= |segs|
    ensures Carries(frames[k], slots[k], image, ClockOf(clock, k)) && slots[k].offset + slots[k].length <= |image|
    ensures slots[k].offset == Offset(segs, k) < 0x1_0000_0000
    ensures slots[k].offset + slots[k].length == Offset(segs, k + 1)
  {
    ProgressCarries(s, lens, slots, frames, segs, image, clock, start, n);
    hide *;
  }

  lemma {:induction false} ProgressOnWire(
    s: StackState, lens: seq<nat>, slots: seq<Slot>, frames: seq<Packet>, segs: seq<nat>, image: seq<byte>,
    clock: Option<Clock>, start: nat, n: nat)
    requires Progress(s, lens, slots, frames, segs, image, clock, start, n)
    ensures ImageOnWire(frames, slots, segs, image, clock)
  {
    hide SegmentOnWire;
    hide OnTheWay;
    forall k | 0 <= k < |frames| ensures SegmentOnWire(frames[k], slots[k].idx, segs, k, image, clock) {
      SlotIsOnWire(s, lens, slots, frames, segs, image, clock, start, n, k);
    }
  }

  lemma {:induction false} SlotIsOnWire(
    s: StackState, lens: seq<nat>, slots: seq<Slot>, frames: seq<Packet>, segs: seq<nat>, image: seq<byte>,
    clock: Option<Clock>, start: nat, n: nat, k: nat)
    requires Progress(s, lens, slots, frames, segs, image, clock, start, n) && k < n
    ensures |frames| == |slots| == n <= |segs|
    ensures SegmentOnWire(frames[k], slots[k].idx, segs, k, image, clock)
  {
    hide *;
    CarriesAt(s, lens, slots, frames, segs, image, clock, start, n, k);
    CarriesOnWire(frames[k], slots[k], image, ClockOf(clock, k));
    SegmentIs(frames[k], slots[k].idx, segs, k, image, clock);
  }

  lemma {:induction false} SegmentIs(
    f: Packet, idx: nat, segs: seq<nat>, k: nat, image: seq<byte>, clock: Option<Clock>)
    requires k < |segs| && Offset(segs, k) <= Offset(segs, k + 1) <= |image|
    requires LrwOnWire(f, idx, Offset(segs, k), image[Offset(segs, k)..Offset(segs, k + 1)], ClockOf(clock, k))
    ensures SegmentOnWire(f, idx, segs, k, image, clock)
  {
    hide LrwOnWire;
    hide Offset;
  }

  /** Every byte of the image is in exactly one frame, and no frame covers another byte. */
  ghost predicate ImageCarried(frames: seq<Packet>, image: seq<byte>, size: nat) {
    size <= |image| && forall x: nat :: if x < size then CarriedAs(frames, x, image[x]) else NotCarried(frames, x)
  }

  /** One frame covers byte `x`, with this value, and no other frame does. */
  ghost predicate CarriedAs(frames: seq<Packet>, x: nat, value: byte) {
    exists k :: 0 <= k < |frames| && OnlyFrame(frames, k, x, value)
  }

  ghost predicate OnlyFrame(frames: seq<Packet>, k: nat, x: nat, value: byte)
    requires k < |frames|
  {
    && CarriesByte(frames[k], x) && frames[k][PlaceOf(frames[k], x)] == value
    && forall j :: 0 <= j < |frames| && j != k ==> !CarriesByte(frames[j], x)
  }

  predicate NotCarried(frames: seq<Packet>, x: nat) {
    forall k :: 0 <= k < |frames| ==> !CarriesByte(frames[k], x)
  }

  /** The segment that byte `x` belongs to. */
  lemma {:induction false} SegmentOf(segs: seq<nat>, n: nat, x: nat) returns (k: nat)
    requires n <= |segs| && x < Offset(segs, n)
    ensures k < n && Offset(segs, k) <= x < Offset(segs, k + 1)
  {
    k := n - 1;
    if x < Offset(segs, k) {
      k := SegmentOf(segs, k, x);
    }
  }

  /** Which bytes a frame on the wire covers. */
  lemma {:induction false} ByteOnWire(f: Packet, idx: nat, logAdr: nat, data: seq<byte>, clock: Option<Clock>, x: nat)
    requires LrwOnWire(f, idx, logAdr, data, clock)
    ensures CarriesByte(f, x) <==> logAdr <= x < logAdr + |data|
    ensures CarriesByte(f, x) ==> f[PlaceOf(f, x)] == data[x - logAdr]
    ensures DataLength(f) == |data| && LogicalAddress(f) == logAdr
  {
    LengthOnWire(f[22], f[23], |data|, clock.Some?);
    hide ClockOnWire;
    hide LogicalAddress;
    if logAdr <= x < logAdr + |data| {
      assert f[26..26 + |data|][x - logAdr] == f[26 + x - logAdr];
    }
  }

  lemma {:induction false} LengthOnWire(lo: byte, hi: byte, n: nat, follows: bool)
    requires lo as int + 0x100 * (hi as int) == n + (if follows then 0x8000 else 0) && n < 0x800
    ensures (lo as int + 0x100 * (hi as int)) % 0x800 == n
  {
  }

  lemma {:induction false} SegmentByte(
    frames: seq<Packet>, slots: seq<Slot>, segs: seq<nat>, image: seq<byte>, clock: Option<Clock>, k: nat, x: nat)
    requires ImageOnWire(frames, slots, segs, image, clock) && k < |frames|
    ensures CarriesByte(frames[k], x) <==> Offset(segs, k) <= x < Offset(segs, k + 1)
    ensures CarriesByte(frames[k], x) ==> x < |image| && frames[k][PlaceOf(frames[k], x)] == image[x]
    ensures Offset(segs, k) <= Offset(segs, k + 1)
  {
    hide LrwOnWire;
    hide CarriesByte;
    hide Offset;
    assert SegmentOnWire(frames[k], slots[k].idx, segs, k, image, clock);
    ByteOnWire(frames[k], slots[k].idx, Offset(segs, k), image[Offset(segs, k)..Offset(segs, k + 1)],
               if k == 0 then clock else None, x);
  }

  lemma {:induction false} ByteIsCarried(
    frames: seq<Packet>, slots: seq<Slot>, segs: seq<nat>, image: seq<byte>, clock: Option<Clock>, x: nat)
    requires ImageOnWire(frames, slots, segs, image, clock) && |frames| <= |segs|
    requires x < Offset(segs, |frames|) <= |image|
    ensures CarriedAs(frames, x, image[x])
  {
    hide CarriesByte;
    hide ImageOnWire;
    hide PlaceOf;
    hide Offset;
    var k := SegmentOf(segs, |frames|, x);
    SegmentByte(frames, slots, segs, image, clock, k, x);
    forall j | 0 <= j < |frames| && j != k ensures !CarriesByte(frames[j], x) {
      SegmentByte(frames, slots, segs, image, clock, j, x);
      OffsetGrows(segs, if j < k then j + 1 else k + 1, if j < k then k else j);
    }
    assert OnlyFrame(frames, k, x, image[x]);
  }

  lemma {:induction false} ByteIsNotCarried(
    frames: seq<Packet>, slots: seq<Slot>, segs: seq<nat>, image: seq<byte>, clock: Option<Clock>, x: nat)
    requires ImageOnWire(frames, slots, segs, image, clock) && |frames| <= |segs| && x >= Offset(segs, |frames|)
    ensures NotCarried(frames, x)
  {
    hide CarriesByte;
    hide ImageOnWire;
    hide PlaceOf;
    hide Offset;
    forall k | 0 <= k < |frames| ensures !CarriesByte(frames[k], x) {
      SegmentByte(frames, slots, segs, image, clock, k, x);
      OffsetGrows(segs, k + 1, |frames|);
    }
  }

  lemma {:induction false} WireCarriesImage(
    frames: seq<Packet>, slots: seq<Slot>, segs: seq<nat>, image: seq<byte>, clock: Option<Clock>, size: nat)
    requires ImageOnWire(frames, slots, segs, image, clock) && |frames| <= |segs|
    requires Offset(segs, |frames|) == size <= |image|
    ensures ImageCarried(frames, image, size)
  {
    hide CarriedAs;
    hide NotCarried;
    hide ImageOnWire;
    hide Offset;
    forall x: nat ensures if x < size then CarriedAs(frames, x, image[x]) else NotCarried(frames, x) {
      if x < size {
        ByteIsCarried(frames, slots, segs, image, clock, x);
      } else {
        ByteIsNotCarried(frames, slots, segs, image, clock, x);
      }
    }
  }

  lemma {:induction false} SentOnWire(
    s: StackState, lens: seq<nat>, slots: seq<Slot>, frames: seq<Packet>, segs: seq<nat>, image: seq<byte>,
    clock: Option<Clock>, start: nat, n: nat)
    requires Progress(s, lens, slots, frames, segs, image, clock, start, n) && n <= |segs|
    requires Offset(segs, n) <= |image|
    ensures ImageOnWire(frames, slots, segs, image, clock) && ImageCarried(frames, image, Offset(segs, n))
  {
    ProgressOnWire(s, lens, slots, frames, segs, image, clock, start, n);
    ProgressCarries(s, lens, slots, frames, segs, image, clock, start, n);
    hide *;
    WireCarriesImage(frames, slots, segs, image, clock, Offset(segs, n));
  }

  // The answers

  /** The bytes of every answer that came are in the image, where the headers of its frame say, and
      everything else in the image is as it was. */
  ghost predicate ImageReturned(before: seq<byte>, after: seq<byte>, frames: seq<Packet>, answers: seq<Packet>,
                                came: seq<bool>, size: nat)
  {
    && |frames| == |answers| == |came| && size <= |before| == |after| && after[size..] == before[size..]
    && forall k :: 0 <= k < |frames| ==> FrameReturned(before, after, frames[k], answers[k], came[k])
  }

  ghost predicate FrameReturned(before: seq<byte>, after: seq<byte>, f: Packet, p: Packet, came: bool) {
    |p| == |f| && forall x: nat :: CarriesByte(f, x) ==> ByteReturned(before, after, f, p, came, x)
  }

  ghost predicate ByteReturned(before: seq<byte>, after: seq<byte>, f: Packet, p: Packet, came: bool, x: nat)
    requires CarriesByte(f, x) && |p| == |f|
  {
    x < |before| == |after| && after[x] == if came then p[PlaceOf(f, x)] else before[x]
  }

  /** The working counters behind the data in the first `n` answers, of those that came. */
  function WkcReturned(frames: seq<Packet>, answers: seq<Packet>, came: seq<bool>, n: nat): int
    requires n <= |frames| == |answers| == |came|
  {
    if n == 0 then 0
    else
      WkcReturned(frames, answers, came, n - 1)
      + (if came[n - 1] then WkcAt(answers[n - 1], 26 + DataLength(frames[n - 1])) else 0)
  }

  function WkcAt(p: Packet, at: nat): int {
    if at + 2 <= |p| then p[at] as int + 0x100 * (p[at + 1] as int) else 0
  }

  /** The eight bytes of the clock's datagram in the answer to the first frame. */
  function TimeReturned(frames: seq<Packet>, answers: seq<Packet>): seq<byte>
    requires |frames| == |answers| > 0
  {
    var at := 38 + DataLength(frames[0]);
    if at + 8 <= |answers[0]| then answers[0][at..at + 8] else []
  }

  /** What is put into the image from one answer is what lies behind the headers of its frame. */
  lemma {:induction false} OneReturned(before: seq<byte>, after: seq<byte>, f: Packet, p: Packet, slot: Slot,
                                       clock: Option<Clock>, came: bool, x: nat)
    requires Carries(f, slot, before, clock) && slot.offset < 0x1_0000_0000 && |p| == |f|
    requires slot.offset + slot.length <= |before| == |after| && 28 + slot.length <= |p|
    requires after[slot.offset..slot.offset + slot.length]
             == if came then DataOf(p, slot) else before[slot.offset..slot.offset + slot.length]
    ensures CarriesByte(f, x) <==> slot.offset <= x < slot.offset + slot.length
    ensures CarriesByte(f, x) ==> after[x] == if came then p[PlaceOf(f, x)] else before[x]
  {
    hide *;
    var o, n := slot.offset, slot.length;
    CarriesOnWire(f, slot, before, clock);
    ByteOnWire(f, slot.idx, o, before[o..o + n], clock, x);
    if o <= x < o + n {
      ByteIsReturned(before, after, f, p, slot, came, x);
    }
  }

  lemma {:induction false} ByteIsReturned(
    before: seq<byte>, after: seq<byte>, f: Packet, p: Packet, slot: Slot, came: bool, x: nat)
    requires slot.offset + slot.length <= |before| == |after| && 28 + slot.length <= |p| == |f|
    requires slot.offset <= x < slot.offset + slot.length && CarriesByte(f, x) && LogicalAddress(f) == slot.offset
    requires after[slot.offset..slot.offset + slot.length]
             == if came then DataOf(p, slot) else before[slot.offset..slot.offset + slot.length]
    ensures after[x] == if came then p[PlaceOf(f, x)] else before[x]
  {
    hide LogicalAddress;
    var o, n := slot.offset, slot.length;
    assert after[x] == after[o..o + n][x - o];
    assert before[x] == before[o..o + n][x - o];
  }

  lemma {:induction false} WkcIsReturned(f: Packet, p: Packet, slot: Slot, image: seq<byte>, clock: Option<Clock>)
    requires Carries(f, slot, image, clock) && slot.offset < 0x1_0000_0000 && |p| == |f|
    ensures DataLength(f) == slot.length && WkcOf(p, slot) as int == WkcAt(p, 26 + DataLength(f))
    ensures clock.Some? ==> slot.dcoffset > 0 && TimeOf(p, slot) == TimeReturned([f], [p])
    ensures clock.None? ==> slot.dcoffset == 0
  {
    CarriesDims(f, slot, image, clock);
    hide *;
    CarriesOnWire(f, slot, image, clock);
    ByteOnWire(f, slot.idx, slot.offset, image[slot.offset..slot.offset + slot.length], clock, 0);
    ReturnedIs(f, p, slot);
  }

  lemma {:induction false} CarriesDims(f: Packet, slot: Slot, image: seq<byte>, clock: Option<Clock>)
    requires Carries(f, slot, image, clock)
    ensures slot.offset + slot.length <= |image| && 28 + slot.length <= |f|
    ensures slot.dcoffset == (if clock.Some? then slot.length + 24 else 0)
  {
    FrameHeader(f, slot, image, clock);
  }

  lemma {:induction false} ReturnedIs(f: Packet, p: Packet, slot: Slot)
    requires 28 + slot.length <= |p| == |f| && DataLength(f) == slot.length
    ensures WkcOf(p, slot) as int == WkcAt(p, 26 + DataLength(f))
    ensures slot.dcoffset == slot.length + 24 ==> TimeOf(p, slot) == TimeReturned([f], [p])
  {
    hide DataLength;
  }

  lemma {:induction false} WkcIsSum(
    slots: seq<Slot>, frames: seq<Packet>, answers: seq<Packet>, came: seq<bool>, n: nat)
    requires n <= |slots| == |frames| == |answers| == |came|
    requires forall k :: 0 <= k < |slots| ==>
      WkcOf(answers[k], slots[k]) as int == WkcAt(answers[k], 26 + DataLength(frames[k]))
    ensures WkcReturned(frames, answers, came, n) == WkcSum(slots, answers, came, n)
  {
    hide WkcOf;
    hide WkcAt;
    hide DataLength;
    if n > 0 {
      WkcIsSum(slots, frames, answers, came, n - 1);
    }
  }
}
