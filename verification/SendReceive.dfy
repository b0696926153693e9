/** Sending and receiving the process image of group 0, with LRW allowed and without overlap
    (ec_main.c, `ecx_send_processdata_group` and `ecx_receive_processdata_group`). */
module SendReceive {
  import opened EcTypes
  import opened Datagram
  import opened Port
  import opened ProcessData
  import opened IoSegments
  import opened IoGroup
  import opened SegmentFrames
  import opened ProcessWire

  /** The master's side of the exchange: a port without redundancy, the IO map and the index
      stack. The data pointers of the index stack are offsets into the IO map. */
  class Master {
    const stack: Stack
    const txbuf: seq<array<byte>>
    const txbuflength: array<nat>
    var lastidx: nat
    const iomap: array<byte>
    const idxstack: array<Slot>
    var pushed: nat
    var pulled: nat
    var DCtime: seq<byte>

    /** Sets up the port for an IO map; the Ethernet headers of all frame buffers are preset. */
    constructor (iomap: array<byte>, time: seq<byte>)
      requires |time| == 8
      ensures Ready() && this.iomap == iomap && DCtime == time && pushed == pulled == 0
      ensures fresh(stack) && fresh(Frames()) && fresh(txbuflength) && fresh(idxstack)
      ensures fresh(stack.rxbuf) && fresh(stack.rxbufstat) && fresh(stack.rxsa)
      ensures forall i :: 0 <= i < EC_MAXBUF ==> stack.rxbufstat[i] == EC_BUF_EMPTY && |stack.rxbuf[i]| == EC_BUFSIZE
    {
      var frames: seq<array<byte>> := [];
      while |frames| < EC_MAXBUF
        invariant |frames| <= EC_MAXBUF
        invariant forall i :: 0 <= i < |frames| ==> HeaderSet(frames[i]) && fresh(frames[i]) && frames[i] != iomap
      {
        var frame := new byte[EC_BUFSIZE](i => if i == 12 then 0x88 else if i == 13 then 0xa4 else 0xff);
        frames := frames + [frame];
      }
      stack := new Stack();
      txbuf := frames;
      txbuflength := new nat[EC_MAXBUF](i => 0);
      lastidx := 0;
      this.iomap := iomap;
      idxstack := new Slot[EC_MAXBUF](i => Slot(0, 0, 0, 0));
      pushed, pulled := 0, 0;
      DCtime := time;
    }

    function Frames(): set<object> {
      set i | 0 <= i < |txbuf| :: txbuf[i]
    }

    /** Everything the exchange may change. */
    ghost function Footprint(): set<object> {
      {this, stack, stack.rxbuf, stack.rxbufstat, stack.rxsa, txbuflength, idxstack, iomap} + Frames()
    }

    ghost predicate Ready()
      reads this, Frames()
    {
      && stack.Apart() && txbuflength != stack.rxbufstat && txbuflength != stack.rxsa
      && txbuflength.Length == |txbuf| == idxstack.Length == EC_MAXBUF && lastidx < EC_MAXBUF && |DCtime| == 8
      && iomap !in Frames()
      && forall i :: 0 <= i < EC_MAXBUF ==> HeaderSet(txbuf[i])
    }

    /** The Ethernet header of a frame buffer is preset. */
    static ghost predicate HeaderSet(frame: array<byte>)
      reads frame
    {
      frame.Length == EC_BUFSIZE && frame[12] == 0x88 && frame[13] == 0xa4
    }

    /** Takes a free buffer and builds the frame of one segment in it. */
    method PrepareFrame(data: seq<byte>, LogAdr: nat, clock: Option<Clock>) returns (idx: nat, length: nat, DCO: nat)
      requires Ready() && IsFree(stack.rxbufstat[..], lastidx, 0)
      requires 28 + |data| + (if clock.Some? then 20 else 0) <= EC_BUFSIZE
      requires clock.Some? ==> |clock.value.time| == 8
      modifies this`lastidx, stack.rxbufstat, Frames()
      ensures Ready() && lastidx == idx == Around(old(lastidx) + 1, 0)
      ensures stack.rxbufstat[..] == old(stack.rxbufstat[..])[idx := EC_BUF_ALLOC]
      ensures FrameHolds(txbuf[idx][..], length, SegmentChain(idx as byte, LogAdr, data, clock), false)
      ensures DCO == if clock.Some? then |data| + 24 else 0
      ensures length == 28 + |data| + (if clock.Some? then 20 else 0)
    {
      hide FrameHolds;
      hide SegmentChain;
      ghost var d;
      idx, d := GetIndex(stack.rxbufstat, lastidx);
      lastidx := idx;
      length, DCO := BuildFrame(txbuf[idx], idx, data, LogAdr, clock);
    }

    /** Sends a frame that was prepared in buffer `idx`, and notes it on the stack. */
    method QueueFrame(idx: nat, length: nat, offset: nat, sublength: nat, DCO: nat)
      requires Ready() && idx < EC_MAXBUF && length <= EC_BUFSIZE && pushed < EC_MAXBUF
      modifies this`pushed, stack`sent, stack.rxbufstat, txbuflength, idxstack
      ensures Ready() && stack.sent == old(stack.sent) + [txbuf[idx][..length]]
      ensures stack.rxbufstat[..] == old(stack.rxbufstat[..])[idx := EC_BUF_TX]
      ensures txbuflength[..] == old(txbuflength[..])[idx := length]
      ensures pushed == old(pushed) + 1
        && idxstack[..pushed] == old(idxstack[..pushed]) + [Slot(idx, offset, sublength, DCO)]
    {
      assert HeaderSet(txbuf[idx]);
      txbuflength[idx] := length;
      stack.OutFrame(txbuf[idx][..length], idx);
      idxstack[pushed] := Slot(idx, offset, sublength, DCO);
      pushed := pushed + 1;
    }

    /** Sends one segment. */
    method SendSegment(offset: nat, sublength: nat, LogAdr: nat, clock: Option<Clock>)
        returns (ghost f: Packet, ghost slot: Slot)
      requires Ready() && IsFree(stack.rxbufstat[..], lastidx, 0) && pushed < EC_MAXBUF
      requires offset == LogAdr && offset + sublength <= iomap.Length
      requires 28 + sublength + (if clock.Some? then 20 else 0) <= EC_BUFSIZE
      requires clock.Some? ==> |clock.value.time| == 8
      modifies this`lastidx, this`pushed, stack`sent, stack.rxbufstat, txbuflength, idxstack, Frames()
      ensures Ready() && lastidx == slot.idx == Around(old(lastidx) + 1, 0)
      ensures stack.sent == old(stack.sent) + [f]
        && stack.rxbufstat[..] == old(stack.rxbufstat[..])[slot.idx := EC_BUF_TX]
      ensures txbuflength[..] == old(txbuflength[..])[slot.idx := |f|]
      ensures pushed == old(pushed) + 1 && idxstack[..pushed] == old(idxstack[..pushed]) + [slot]
      ensures Carries(f, slot, iomap[..], clock) && slot.offset == offset && slot.length == sublength
    {
      hide Carries;
      hide FrameHolds;
      ghost var image := iomap[..];
      assert image[offset..offset + sublength] == iomap[offset..offset + sublength];
      var idx, length, DCO := PrepareFrame(iomap[offset..offset + sublength], LogAdr, clock);
      assert iomap[..] == image;
      assert HeaderSet(txbuf[idx]);
      f, slot := txbuf[idx][..length], Slot(idx, offset, sublength, DCO);
      BuiltCarries(txbuf[idx][..], length, slot, image, clock);
      QueueFrame(idx, length, offset, sublength, DCO);
    }

    /** The mailbox status bytes are cleared before they are read anew. */
    method ClearMbxStatus(position: nat, mbxstatuslength: nat)
      requires position + mbxstatuslength <= iomap.Length
      modifies iomap
      ensures iomap[..] == Cleared(old(iomap[..]), position, mbxstatuslength)
    {
      forall i | 0 <= i < mbxstatuslength {
        iomap[position + i] := 0;
      }
    }

    /** Sends segment `k`. */
    method SendNext(data: nat, sublength: nat, LogAdr: nat, clock: Option<Clock>,
                    ghost frames: seq<Packet>, ghost segs: seq<nat>, ghost whole: Option<Clock>,
                    ghost start: nat, ghost k: nat)
        returns (ghost f: Packet)
      requires Ready() && pushed == k < |segs| && k < EC_MAXBUF && lastidx == Around(start, k)
      requires Progress(stack.View(), txbuflength[..], idxstack[..pushed], frames, segs, iomap[..], whole, start, k)
      requires clock == ClockOf(whole, k) && (clock.Some? ==> |clock.value.time| == 8)
      requires data == LogAdr == Offset(segs, k) && sublength == segs[k] && data + sublength <= iomap.Length
      requires 28 + sublength + (if clock.Some? then 20 else 0) <= EC_BUFSIZE
      modifies this`lastidx, this`pushed, stack`sent, stack.rxbufstat, txbuflength, idxstack, Frames()
      ensures Ready() && stack.sent == old(stack.sent) + [f] && pushed == k + 1 && lastidx == Around(start, k + 1)
      ensures Progress(stack.View(), txbuflength[..], idxstack[..pushed], frames + [f], segs, iomap[..],
                       whole, start, k + 1)
      ensures iomap[..] == old(iomap[..]) && DCtime == old(DCtime)
    {
      hide Progress;
      hide Around;
      hide Carries;
      ghost var s, lens, slots, image := stack.View(), txbuflength[..], idxstack[..pushed], iomap[..];
      ProgressFree(s, lens, slots, frames, segs, image, whole, start, k);
      NextBuffer(s.rxbufstat, start, lastidx, k);
      ghost var slot;
      f, slot := SendSegment(data, sublength, LogAdr, clock);
      assert iomap[..] == image;
      ProgressStep(s, lens, slots, frames, segs, image, whole, start, k, slot, f, stack.View(), txbuflength[..]);
    }

    /** Sends the segments one behind the other until the image is through. */
    method SendSegments(group: Group, hasdc: bool, configadr: uint16) returns (ghost frames: seq<Packet>)
      requires Ready() && pushed == 0 && Sendable(group.IOsegment[..], group.nsegments, ImageSize(group))
      requires 0 < ImageSize(group) <= iomap.Length
      requires group.IOsegment != txbuflength && group.IOsegment != stack.rxbufstat
      requires forall i :: 0 <= i < EC_MAXBUF ==> stack.rxbufstat[i] == EC_BUF_EMPTY
      modifies this`lastidx, this`pushed, stack`sent, stack.rxbufstat, txbuflength, idxstack, Frames()
      ensures Ready() && stack.sent == old(stack.sent) + frames
      ensures pushed <= group.nsegments && Offset(group.IOsegment[..group.nsegments], pushed) == ImageSize(group)
      ensures Progress(stack.View(), txbuflength[..], idxstack[..pushed], frames,
                       group.IOsegment[..group.nsegments], iomap[..],
                       if hasdc then Some(Clock(configadr, DCtime)) else None, old(lastidx), pushed)
    {
      hide Progress;
      AroundZero(lastidx);
      hide Around;
      hide Carries;
      hide IsFree;
      hide HeaderSet;
      hide Sendable;
      hide Offset;
      ghost var segs, start := group.IOsegment[..group.nsegments], lastidx;
      ghost var clock := if hasdc then Some(Clock(configadr, DCtime)) else None;
      frames := [];
      ghost var image, sent, all, size := iomap[..], stack.sent, group.IOsegment[..], ImageSize(group);
      ProgressStarts(stack.View(), txbuflength[..], segs, image, clock, start);
      SegmentsBegin(all, group.nsegments, size);
      var first := hasdc;
      var length := group.Obytes + group.Ibytes + group.mbxstatuslength;
      var LogAdr, currentsegment, data: nat := 0, 0, 0;
      var more := true;
      while more
        invariant Ready() && pushed == currentsegment <= |segs| && currentsegment == |frames|
        invariant more ==> currentsegment < |segs|
        invariant !more ==> length == 0
        invariant LogAdr == data == Offset(segs, currentsegment) && length == size - data
        invariant lastidx == Around(start, currentsegment) && first == (hasdc && currentsegment == 0)
        invariant stack.sent == sent + frames && iomap[..] == image && group.IOsegment[..] == all
        invariant Progress(stack.View(), txbuflength[..], idxstack[..pushed], frames, segs, image,
                           clock, start, currentsegment)
        decreases |segs| - currentsegment, more
      {
        SegmentFits(all, |segs|, size, currentsegment);
        var sublength := group.IOsegment[currentsegment];
        ghost var f;
        f := SendNext(data, sublength, LogAdr, if first then Some(Clock(configadr, DCtime)) else None,
                      frames, segs, clock, start, currentsegment);
        currentsegment := currentsegment + 1;
        frames := frames + [f];
        first := false;
        length := length - sublength;
        LogAdr := LogAdr + sublength;
        data := data + sublength;
        more := length > 0 && currentsegment < group.nsegments;
      }
    }

    /** Sends the image of the group. */
    method SendProcessData(group: Group, hasdc: bool, configadr: uint16) returns (wkc: int, ghost frames: seq<Packet>)
      requires Ready() && pushed == 0 && Sendable(group.IOsegment[..], group.nsegments, ImageSize(group))
      requires ImageSize(group) <= iomap.Length
      requires group.IOsegment != txbuflength && group.IOsegment != stack.rxbufstat
      requires forall i :: 0 <= i < EC_MAXBUF ==> stack.rxbufstat[i] == EC_BUF_EMPTY
      modifies this`lastidx, this`pushed, stack`sent, stack.rxbufstat, txbuflength, idxstack, Frames(), iomap
      ensures Ready() && stack.sent == old(stack.sent) + frames
      ensures iomap[..] == Cleared(old(iomap[..]), group.Obytes + group.Ibytes, group.mbxstatuslength)
      ensures pushed <= group.nsegments && Offset(group.IOsegment[..group.nsegments], pushed) == ImageSize(group)
      ensures Progress(stack.View(), txbuflength[..], idxstack[..pushed], frames,
                       group.IOsegment[..group.nsegments], iomap[..],
                       if hasdc then Some(Clock(configadr, DCtime)) else None, old(lastidx), pushed)
      ensures ImageOnWire(frames, idxstack[..pushed], group.IOsegment[..group.nsegments], iomap[..],
                          if hasdc then Some(Clock(configadr, DCtime)) else None)
      ensures ImageCarried(frames, iomap[..], ImageSize(group))
      ensures wkc == if ImageSize(group) > 0 then 1 else 0
    {
      hide Progress;
      wkc := 0;
      frames := [];
      ClearMbxStatus(group.Obytes + group.Ibytes, group.mbxstatuslength);
      ProgressStarts(stack.View(), txbuflength[..], group.IOsegment[..group.nsegments], iomap[..],
                     if hasdc then Some(Clock(configadr, DCtime)) else None, lastidx);
      if group.Obytes + group.Ibytes + group.mbxstatuslength > 0 {
        wkc := 1;
        frames := SendSegments(group, hasdc, configadr);
      }
      SentOnWire(stack.View(), txbuflength[..], idxstack[..pushed], frames, group.IOsegment[..group.nsegments],
        iomap[..],
                 if hasdc then Some(Clock(configadr, DCtime)) else None, old(lastidx), pushed);
    }

    /** Takes the next frame off the index stack; -1 if there is none. */
    method PullIndex() returns (rval: int)
      modifies this`pulled
      ensures if old(pulled) < pushed then rval == old(pulled) && pulled == rval + 1
              else rval == -1 && pulled == old(pulled)
    {
      rval := -1;
      if pulled < pushed {
        rval := pulled;
        pulled := pulled + 1;
      }
    }

    /** Puts the data of a received frame back into the IO map. */
    method UnpackFrame(pos: nat, wkc: int, wkc2: int, ghost g: Gathered) returns (wkc': int, valid: bool)
      requires Ready() && pos < EC_MAXBUF && SlotFits(idxstack[pos], iomap[..])
      requires |stack.rxbuf[idxstack[pos].idx]| == EC_BUFSIZE
      requires g.image == iomap[..] && g.wkc == wkc && g.DCtime == DCtime
      modifies iomap, this`DCtime
      ensures var r := Unpack(g, stack.rxbuf[idxstack[pos].idx], idxstack[pos], wkc2);
              iomap[..] == r.image && wkc' == r.wkc && DCtime == r.DCtime && (g.valid || valid) == r.valid
      ensures |DCtime| == 8
    {
      var slot := idxstack[pos];
      var rx := stack.rxbuf[slot.idx];
      valid := false;
      wkc' := wkc;
      if rx[EC_CMDOFFSET] == EC_CMD_LRD || rx[EC_CMDOFFSET] == EC_CMD_LRW {
        Write(iomap, slot.offset, rx[EC_HEADERSIZE..EC_HEADERSIZE + slot.length]);
        if slot.dcoffset > 0 {
          wkc' := Word(rx, EC_HEADERSIZE + slot.length) as int;
          DCtime := rx[slot.dcoffset..slot.dcoffset + 8];
        } else {
          wkc' := wkc + wkc2;
        }
        valid := true;
      } else if rx[EC_CMDOFFSET] == EC_CMD_LWR {
        if slot.dcoffset > 0 {
          wkc' := Word(rx, EC_HEADERSIZE + slot.length) as int * 2;
          DCtime := rx[slot.dcoffset..slot.dcoffset + 8];
        } else {
          wkc' := wkc + wkc2 * 2;
        }
        valid := true;
      }
    }

    /** Receives one frame and frees its buffer. */
    method ReceiveFrame(pos: nat, wkc: int, polls: nat, ghost g: Gathered) returns (wkc': int, valid: bool)
      requires Ready() && Valid(stack.View(), txbuflength[..]) && pos < EC_MAXBUF && SlotFits(idxstack[pos], iomap[..])
      requires g.port == stack.View() && g.image == iomap[..] && g.wkc == wkc && g.DCtime == DCtime
      modifies stack`arrivals, stack.rxbuf, stack.rxbufstat, stack.rxsa, iomap, this`DCtime
      ensures var r := ReceiveOne(g, txbuflength[..], idxstack[pos], polls);
              && stack.View() == r.port && iomap[..] == r.image && wkc' == r.wkc && DCtime == r.DCtime
              && (g.valid || valid) == r.valid
      ensures |DCtime| == 8
    {
      hide Await;
      hide Unpack;
      hide Put;
      var idx := idxstack[pos].idx;
      wkc' := wkc;
      valid := false;
      var wkc2 := stack.WaitInFrame(txbuflength, idx, polls);
      if wkc2 > EC_NOFRAME {
        wkc', valid := UnpackFrame(pos, wkc, wkc2, g);
      }
      stack.rxbufstat[idx] := EC_BUF_EMPTY;
    }

    /** Receives the frames in the order in which they were sent. */
    method ReceiveProcessData(polls: nat) returns (wkc: int)
      requires Ready() && Valid(stack.View(), txbuflength[..]) && pulled == 0 && pushed <= EC_MAXBUF
      requires SlotsFit(idxstack[..pushed], iomap[..])
      modifies stack`arrivals, stack.rxbuf, stack.rxbufstat, stack.rxsa, iomap, this`DCtime, this`pushed, this`pulled
      ensures var g := ReceiveTo(Gathered(old(stack.View()), old(iomap[..]), 0, false, old(DCtime)),
                                 old(txbuflength[..]), old(idxstack[..pushed]), polls, old(pushed));
              && stack.View() == g.port && iomap[..] == g.image && DCtime == g.DCtime
              && wkc == if g.valid then g.wkc else EC_NOFRAME
      ensures Ready() && pushed == 0 && pulled == 0
    {
      hide ReceiveOne;
      hide Valid;
      ghost var lens, slots := txbuflength[..], idxstack[..pushed];
      ghost var g0 := Gathered(stack.View(), iomap[..], 0, false, DCtime);
      ghost var g := g0;
      wkc := 0;
      var valid_wkc := false;
      var pos := PullIndex();
      while pos >= 0
        invariant Ready() && pulled <= pushed == |slots| && idxstack[..pushed] == slots && txbuflength[..] == lens
        invariant pos == -1 ==> pulled == pushed
        invariant pos >= 0 ==> pulled == pos + 1
        invariant -1 <= pos
        invariant g == ReceiveTo(g0, lens, slots, polls, if pos >= 0 then pos else pushed)
        invariant g == Gathered(stack.View(), iomap[..], wkc, valid_wkc, DCtime)
        decreases pushed - pulled, pos
      {
        assert idxstack[pos] == slots[pos];
        ghost var n := pos;
        g := ReceiveOne(g, lens, slots[pos], polls);
        var valid;
        wkc, valid := ReceiveFrame(pos, wkc, polls, ReceiveTo(g0, lens, slots, polls, n));
        if valid {
          valid_wkc := true;
        }
        pos := PullIndex();
      }
      pushed, pulled := 0, 0;
      if !valid_wkc {
        wkc := EC_NOFRAME;
      }
    }
  }

  /** The image with zeros in place of `n` bytes. */
  function Cleared(image: seq<byte>, position: nat, n: nat): (r: seq<byte>)
    requires position + n <= |image|
    ensures |r| == |image|
    ensures forall i :: 0 <= i < |r| ==> r[i] == if position <= i < position + n then 0 else image[i]
  {
    Put(image, position, seq(n, i => 0 as byte))
  }

  function ImageSize(group: Group): nat
    reads group
  {
    group.Obytes + group.Ibytes + group.mbxstatuslength
  }

  /** Segments that fit their frames and make up the image, and not more than there are buffers. */
  ghost predicate Sendable(IOsegment: seq<nat>, nsegments: nat, size: nat) {
    && nsegments <= |IOsegment| && nsegments <= EC_MAXBUF
    && Offset(IOsegment[..nsegments], nsegments) == size
    && forall k :: 0 <= k < nsegments ==>
         IOsegment[k] <= EC_MAXLRWDATA - (if k == 0 then EC_FIRSTDCDATAGRAM else 0)
  }

  lemma {:induction false} SegmentsBegin(IOsegment: seq<nat>, nsegments: nat, size: nat)
    requires Sendable(IOsegment, nsegments, size)
    ensures nsegments <= |IOsegment| && nsegments <= EC_MAXBUF && Offset(IOsegment[..nsegments], 0) == 0
    ensures Offset(IOsegment[..nsegments], nsegments) == size && (size > 0 ==> nsegments > 0)
  {
  }

  /** Segment `k` lies in the image, and fits a frame with room for the clock in the first one. */
  lemma {:induction false} SegmentFits(IOsegment: seq<nat>, nsegments: nat, size: nat, k: nat)
    requires Sendable(IOsegment, nsegments, size) && k < nsegments
    ensures var segs := IOsegment[..nsegments];
            && segs[k] == IOsegment[k] && Offset(segs, k + 1) == Offset(segs, k) + segs[k] <= size
            && 28 + segs[k] + (if k == 0 then 20 else 0) <= EC_BUFSIZE
  {
    OffsetGrows(IOsegment[..nsegments], k + 1, nsegments);
  }

  /** Builds the frame of one segment; the clock is read and distributed in a second datagram. */
  method BuildFrame(frame: array<byte>, idx: nat, data: seq<byte>, LogAdr: nat, clock: Option<Clock>)
      returns (length: nat, DCO: nat)
    requires Master.HeaderSet(frame) && idx < EC_MAXBUF
    requires 28 + |data| + (if clock.Some? then 20 else 0) <= EC_BUFSIZE
    requires clock.Some? ==> |clock.value.time| == 8
    modifies frame
    ensures Master.HeaderSet(frame)
      && FrameHolds(frame[..], length, SegmentChain(idx as byte, LogAdr, data, clock), false)
    ensures DCO == if clock.Some? then |data| + 24 else 0
    ensures length == 28 + |data| + (if clock.Some? then 20 else 0)
  {
    hide FrameHolds;
    hide OnWire;
    DCO := 0;
    var w1, w2 := LogAdr % 0x1_0000, LogAdr / 0x1_0000 % 0x1_0000;
    ghost var header := frame[..ETH_HEADERSIZE];
    assert header[12] == frame[12] && header[13] == frame[13];
    length := SetupDatagram(frame, EC_CMD_LRW, idx as byte, w1 as uint16, w2 as uint16, data);
    assert SegmentChain(idx as byte, LogAdr, data, None)
           == [NewDatagram(EC_CMD_LRW, idx as byte, w1 as uint16, w2 as uint16, data)];
    if clock.Some? {
      ghost var ds := [NewDatagram(EC_CMD_LRW, idx as byte, w1 as uint16, w2 as uint16, data)];
      length, DCO := AddDatagram(frame, length, EC_CMD_FRMW, idx as byte, false, clock.value.configadr,
                                 ECT_REG_DCSYSTIME, clock.value.time, ds, false);
      assert Pos(ds + [NewDatagram(EC_CMD_FRMW, idx as byte, clock.value.configadr, ECT_REG_DCSYSTIME,
        clock.value.time)], 1)
             == 28 + |data|;
    }
    assert frame[..ETH_HEADERSIZE][12] == header[12] && frame[..ETH_HEADERSIZE][13] == header[13];
  }

  lemma {:induction false} BuiltCarries(b: seq<byte>, length: nat, slot: Slot, image: seq<byte>, clock: Option<Clock>)
    requires slot.idx < EC_MAXBUF && slot.offset + slot.length <= |image|
    requires 28 + slot.length + (if clock.Some? then 20 else 0) <= EC_BUFSIZE
    requires clock.Some? ==> |clock.value.time| == 8
    requires FrameHolds(b, length, ChainOf(slot, image, clock), false) && b[12] == 0x88 && b[13] == 0xa4
    requires slot.dcoffset == if clock.Some? then slot.length + 24 else 0
    ensures Carries(b[..length], slot, image, clock)
  {
    hide Sits;
    HoldsFrame(b, length, ChainOf(slot, image, clock));
    ChainLength(b, length, ChainOf(slot, image, clock), false);
  }
}
