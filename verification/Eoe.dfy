/** Ethernet over EtherCAT (ec_eoe.c): a frame is cut into fragments that fit the mailbox, and
    put together again. Bit fields are written with division and remainder. */
module Eoe {
  import opened EcTypes

  const ECT_MBXT_EOE: nat := 2

  /** The size of the largest mailbox. */
  const EC_MAXMBX: nat := 1486
  const INVALID_RX_DATA: int := -11

  /** What the six-bit fields of the header can count in a frame, in bytes: 63 blocks of 32. */
  const FRAME_LIMIT: nat := 63 * 32

  /** One mailbox: length (4 bytes of EoE header and the data), type, header words, data. */
  datatype Fragment = Fragment(length: nat, mbxtype: nat, frameinfo1: nat, frameinfo2: nat, data: seq<byte>)

  // Header fields

  function Info1(port: nat, last: bool): nat {
    16 * (port % 16) + (if last then 256 else 0)
  }

  function Info2(fragmentno: nat, blocks: nat, frameno: nat): nat {
    fragmentno % 64 + 64 * (blocks % 64) + 4096 * (frameno % 16)
  }

  function PortGet(frameinfo1: nat): nat { frameinfo1 / 16 % 16 }

  predicate IsLast(frameinfo1: nat) { frameinfo1 / 256 % 2 == 1 }

  predicate HasTime(frameinfo1: nat) { frameinfo1 / 512 % 2 == 1 }

  function FragNoGet(frameinfo2: nat): nat { frameinfo2 % 64 }

  function OffsetGet(frameinfo2: nat): nat { frameinfo2 / 64 % 64 }

  function FrameNoGet(frameinfo2: nat): nat { frameinfo2 / 4096 % 16 }

  lemma {:induction false} FieldsReadBack(port: nat, last: bool, fragmentno: nat, blocks: nat, frameno: nat)
    ensures var i1, i2 := Info1(port, last), Info2(fragmentno, blocks, frameno);
            && PortGet(i1) == port % 16 && IsLast(i1) == last && !HasTime(i1)
            && FragNoGet(i2) == fragmentno % 64 && OffsetGet(i2) == blocks % 64 && FrameNoGet(i2) == frameno % 16
  {
    var a, b, c := fragmentno % 64, blocks % 64, frameno % 16;
    var i2 := a + 64 * b + 4096 * c;
    assert i2 / 64 == b + 64 * c;
    assert i2 / 4096 == c;
  }

  // Sending

  function NextMbxCnt(cnt: nat): nat {
    if cnt + 1 > 7 then 1 else cnt + 1
  }

  /** How much of the rest goes into one mailbox: all of it, or whole blocks of 32 bytes. */
  function ChunkSize(maxdata: nat, rest: nat): (size: nat)
    ensures size <= rest && size <= maxdata
  {
    if rest > maxdata then maxdata / 32 * 32 else rest
  }

  function FragmentOf(frame: seq<byte>, port: nat, frameno: nat, cnt: nat, no: nat, offset: nat, size: nat): Fragment
    requires offset + size <= |frame|
  {
    Fragment(4 + size, ECT_MBXT_EOE + 16 * cnt, Info1(port, offset + size == |frame|),
             Info2(no, if no > 0 then offset / 32 else (|frame| + 31) / 32, frameno), frame[offset..offset + size])
  }

  /** The mailbox has room for a block, or for the whole frame. */
  predicate Sendable(maxdata: nat, frame: seq<byte>) {
    maxdata >= 32 || |frame| <= maxdata
  }

  /** The frame number once a fragment is built: a fragment with number 0 starts a frame. */
  function Counted(frameno: nat, no: nat): nat {
    if no == 0 then (frameno + 1) % 256 else frameno
  }

  /** The fragments of the frame from `offset` on, the first of them with number `no`; fragment
      numbers have 8 bits. */
  function Split(
    frame: seq<byte>, maxdata: nat, port: nat, frameno: nat, cnt: nat, no: nat, offset: nat): (fs: seq<Fragment>)
    requires Sendable(maxdata, frame) && offset <= |frame|
    ensures |fs| > 0
    decreases |frame| - offset
  {
    var size := ChunkSize(maxdata, |frame| - offset);
    var f := FragmentOf(frame, port, Counted(frameno, no), NextMbxCnt(cnt), no, offset, size);
    if size == |frame| - offset then [f]
    else [f] + Split(frame, maxdata, port, Counted(frameno, no), NextMbxCnt(cnt), (no + 1) % 256, offset + size)
  }

  lemma {:induction false} SplitStep(
    frame: seq<byte>, maxdata: nat, port: nat, frameno: nat, cnt: nat, no: nat, offset: nat)
    requires Sendable(maxdata, frame) && offset <= |frame|
    ensures var size := ChunkSize(maxdata, |frame| - offset);
            Split(frame, maxdata, port, frameno, cnt, no, offset)
            == [FragmentOf(frame, port, Counted(frameno, no), NextMbxCnt(cnt), no, offset, size)]
               + if size == |frame| - offset then []
                 else Split(frame, maxdata, port, Counted(frameno, no), NextMbxCnt(cnt), (no + 1) % 256, offset + size)
    ensures ChunkSize(maxdata, |frame| - offset) == |frame| - offset || ChunkSize(maxdata, |frame| - offset) >= 32
  {
  }

  /** Fills one mailbox with the next fragment, and counts the frame when it is the first. */
  method NextFragment(
    p: seq<byte>, maxdata: nat, port: nat, txframeno0: nat, cnt: nat, txfragmentno: nat, txframeoffset: nat)
      returns (f: Fragment, txframesize: nat, NotLast: bool, txframeno: nat)
    requires Sendable(maxdata, p) && txframeoffset <= |p|
    ensures txframeno == Counted(txframeno0, txfragmentno)
    ensures txframesize == ChunkSize(maxdata, |p| - txframeoffset)
    ensures f == FragmentOf(p, port, txframeno, cnt, txfragmentno, txframeoffset, txframesize)
    ensures NotLast <==> txframesize != |p| - txframeoffset
  {
    hide Info1;
    hide Info2;
    var frameinfo1, frameinfo2;
    NotLast, txframeno := true, txframeno0;
    txframesize := |p| - txframeoffset;
    if txframesize > maxdata {
      // whole blocks of 32 bytes
      txframesize := maxdata / 32 * 32;
    }
    if txframesize == |p| - txframeoffset {
      frameinfo1 := Info1(port, true);
      NotLast := false;
    } else {
      frameinfo1 := Info1(port, false);
    }
    if txfragmentno > 0 {
      frameinfo2 := Info2(txfragmentno, txframeoffset / 32, txframeno);
    } else {
      txframeno := (txframeno + 1) % 256;
      frameinfo2 := Info2(txfragmentno, (|p| + 31) / 32, txframeno);
    }
    f := Fragment(4 + txframesize, ECT_MBXT_EOE + 16 * cnt, frameinfo1, frameinfo2,
                  p[txframeoffset..txframeoffset + txframesize]);
  }

  /** How often fragment number 0 occurs among the first `n` fragments. */
  function Starts(n: nat): nat {
    (n + 255) / 256
  }

  lemma {:induction false} OneMoreFragment(frameno0: nat, n: nat)
    ensures n % 256 < 256 && (n % 256 + 1) % 256 == (n + 1) % 256
    ensures Counted((frameno0 + Starts(n)) % 256, n % 256) == (frameno0 + Starts(n + 1)) % 256
  {
    var q, r := n / 256, n % 256;
    assert n == 256 * q + r;
    assert Starts(n) == if r == 0 then q else q + 1;
    assert Starts(n + 1) == q + 1;
  }

  /** Sends a frame; the slave takes the first `accepted` mailboxes. One without room for a block
      and a longer frame would go on until the slave takes no more. */
  method EOEsend(mbx_l: nat, port: nat, p: seq<byte>, mbx_cnt: nat, txframeno0: nat, accepted: nat)
      returns (sent: seq<Fragment>, txframeno: nat, wkc: int)
    requires mbx_l >= 10 ==> Sendable(mbx_l - 10, p)
    requires txframeno0 < 256
    ensures mbx_l < 10 ==> sent == [] && wkc == -1
    ensures mbx_l >= 10 ==>
      var fs := Split(p, mbx_l - 10, port, txframeno0, mbx_cnt, 0, 0);
      if |fs| <= accepted then sent == fs && wkc == 1 else sent == fs[..accepted + 1] && wkc == 0
    ensures txframeno == (txframeno0 + Starts(|sent|)) % 256
    // the mailboxes that are sent, and what the result says
    ensures forall i :: 0 <= i < |sent| ==>
      mbx_l >= 10 && At(mbx_l - 10, i) <= |p| && IsMailbox(sent[i], i, p, mbx_l - 10, port, mbx_cnt, txframeno0)
    ensures mbx_l >= 10 ==> |sent| > 0 && wkc == (if |sent| <= accepted then 1 else 0)
    ensures wkc == 1 ==> |p| - At(mbx_l - 10, |sent| - 1) <= mbx_l - 10
    ensures wkc == 0 ==> |sent| == accepted + 1
  {
    hide *;
    sent, txframeno, wkc := [], txframeno0, -1;
    if mbx_l < 10 {
      assert Starts(0) == 0 by { NoStart(); }
      return;
    }
    var maxdata := mbx_l - 10;
    var cnt: nat, txfragmentno: nat, txframeoffset: nat := mbx_cnt, 0, 0;
    var NotLast := true;
    wkc := 1;
    ghost var fs := Split(p, maxdata, port, txframeno, cnt, 0, 0);
    ghost var rest := fs;
    NoStart();
    while NotLast && wkc > 0
      invariant txframeoffset <= |p| && fs == sent + rest
      invariant (wkc == 1 && |sent| <= accepted) || (wkc == 0 && |sent| == accepted + 1)
      invariant txframeno == (txframeno0 + Starts(|sent|)) % 256
      invariant wkc == 1 && NotLast ==> txfragmentno == |sent| % 256
      invariant wkc == 1 ==>
        rest == if NotLast then Split(p, maxdata, port, txframeno, cnt, txfragmentno, txframeoffset) else []
      decreases |p| - txframeoffset, NotLast, wkc
    {
      SplitStep(p, maxdata, port, txframeno, cnt, txfragmentno, txframeoffset);
      OneMoreFragment(txframeno0, |sent|);
      var f, txframesize;
      cnt := NextMbxCnt(cnt);
      f, txframesize, NotLast, txframeno := NextFragment(p, maxdata, port, txframeno, cnt, txfragmentno, txframeoffset);
      rest := if NotLast then
        Split(p, maxdata, port, txframeno, cnt, (txfragmentno + 1) % 256, txframeoffset + txframesize)
              else [];
      Shift(sent, f, rest);
      sent := sent + [f];
      wkc := if |sent| <= accepted then 1 else 0;
      if NotLast && wkc > 0 {
        txframeoffset := txframeoffset + txframesize;
        txfragmentno := (txfragmentno + 1) % 256;
      }
    }
    forall i | 0 <= i < |sent|
      ensures At(maxdata, i) <= |p| && IsMailbox(sent[i], i, p, maxdata, port, mbx_cnt, txframeno0)
      ensures wkc == 1 && i == |sent| - 1 ==> |p| - At(maxdata, i) <= maxdata
    {
      SplitIsMailboxes(p, maxdata, port, mbx_cnt, txframeno0, i);
    }
  }

  lemma {:induction false} NoStart()
    ensures Starts(0) == 0
  {
  }

  // The mailboxes, field by field

  /** Mailbox `i` of a frame: so many bytes from a block boundary on that all mailboxes before it are
      full, the EoE type with the mailbox counter above it, the port in bits 4 to 7 and the mark of
      the last fragment in bit 8 of the first word, and in the second one the number of the fragment in
      bits 0 to 5, the place of its data or, in a fragment with number 0, the size of the frame, in
      blocks, in bits 6 to 11, and the number of the frame in bits 12 to 15. */
  ghost predicate IsMailbox(
    f: Fragment, i: nat, frame: seq<byte>, maxdata: nat, port: nat, mbx_cnt: nat, txframeno: nat)
    requires At(maxdata, i) <= |frame|
  {
    var offset := At(maxdata, i);
    var rest := |frame| - offset;
    && f.data == (if rest > maxdata then frame[offset..At(maxdata, i + 1)] else frame[offset..])
    && f.length == |f.data| + 4
    && f.mbxtype % 16 == 2
    && (mbx_cnt <= 7 ==> f.mbxtype / 16 == (mbx_cnt + i) % 7 + 1)
    && f.frameinfo1 == 16 * (port % 16) + (if rest > maxdata then 0 else 256)
    && f.frameinfo2 % 64 == i % 256 % 64
    && f.frameinfo2 / 64 % 64 == (if i % 256 == 0 then (|frame| + 31) / 32 else offset / 32) % 64
    && f.frameinfo2 / 4096 == (txframeno + i / 256 + 1) % 256 % 16
  }

  /** Where the data of fragment `i` begin, when all before it have whole blocks only. */
  function At(maxdata: nat, i: nat): nat {
    i * (maxdata / 32 * 32)
  }

  /** The mailbox counter once `i` mailboxes are built. */
  function CounterAt(mbx_cnt: nat, i: nat): nat {
    if i == 0 then mbx_cnt else NextMbxCnt(CounterAt(mbx_cnt, i - 1))
  }

  lemma {:induction false} CounterCycles(mbx_cnt: nat, i: nat)
    requires mbx_cnt <= 7
    ensures CounterAt(mbx_cnt, i + 1) == (mbx_cnt + i) % 7 + 1
  {
    if i > 0 {
      CounterCycles(mbx_cnt, i - 1);
    }
  }

  lemma {:induction false} AtNext(maxdata: nat, i: nat)
    ensures At(maxdata, i + 1) == At(maxdata, i) + maxdata / 32 * 32 && At(maxdata, 0) == 0
  {
    MoreBlocks(i, maxdata / 32 * 32);
  }

  lemma {:induction false} MoreBlocks(i: nat, size: nat)
    ensures (i + 1) * size == i * size + size && 0 * size == 0
  {
  }

  lemma {:induction false} BuiltIsMailbox(
    f: Fragment, i: nat, frame: seq<byte>, maxdata: nat, port: nat, mbx_cnt: nat, txframeno: nat)
    requires Sendable(maxdata, frame) && At(maxdata, i) <= |frame|
    requires var offset := At(maxdata, i);
             f == FragmentOf(frame, port, (txframeno + Starts(i + 1)) % 256, CounterAt(mbx_cnt, i + 1), i % 256, offset,
                             ChunkSize(maxdata, |frame| - offset))
    ensures IsMailbox(f, i, frame, maxdata, port, mbx_cnt, txframeno)
  {
    hide *;
    var offset, no, frameno := At(maxdata, i), i % 256, (txframeno + Starts(i + 1)) % 256;
    var size := ChunkSize(maxdata, |frame| - offset);
    AtNext(maxdata, i);
    ChunkIs(maxdata, |frame| - offset);
    CounterIs(mbx_cnt, i);
    StartsIs(i);
    FragmentFields(frame, port, frameno, CounterAt(mbx_cnt, i + 1), no, offset, size);
    FieldsAreMailbox(f, i, frame, maxdata, port, mbx_cnt, txframeno);
  }

  lemma {:induction false} ChunkIs(maxdata: nat, rest: nat)
    ensures ChunkSize(maxdata, rest) == if rest > maxdata then maxdata / 32 * 32 else rest
  {
  }

  lemma {:induction false} CounterIs(mbx_cnt: nat, i: nat)
    ensures mbx_cnt <= 7 ==> CounterAt(mbx_cnt, i + 1) == (mbx_cnt + i) % 7 + 1
  {
    hide CounterAt;
    if mbx_cnt <= 7 {
      CounterCycles(mbx_cnt, i);
    }
  }

  /** The header of a fragment, taken apart. */
  lemma {:induction false} FragmentFields(
    frame: seq<byte>, port: nat, frameno: nat, cnt: nat, no: nat, offset: nat, size: nat)
    requires offset + size <= |frame|
    ensures var f := FragmentOf(frame, port, frameno, cnt, no, offset, size);
            && f.data == frame[offset..offset + size] && f.length == size + 4
            && f.mbxtype % 16 == 2 && f.mbxtype / 16 == cnt
            && f.frameinfo1 == 16 * (port % 16) + (if offset + size == |frame| then 256 else 0)
            && f.frameinfo2 % 64 == no % 64
            && f.frameinfo2 / 64 % 64 == (if no > 0 then offset / 32 else (|frame| + 31) / 32) % 64
            && f.frameinfo2 / 4096 == frameno % 16
  {
    TypeIs(cnt);
    Word1Is(port, offset + size == |frame|);
    Word2Is(no, if no > 0 then offset / 32 else (|frame| + 31) / 32, frameno);
    hide Info1;
    hide Info2;
  }

  lemma {:induction false} FieldsAreMailbox(
    f: Fragment, i: nat, frame: seq<byte>, maxdata: nat, port: nat, mbx_cnt: nat, txframeno: nat)
    requires At(maxdata, i) <= |frame|
    requires var offset := At(maxdata, i);
             var last := |frame| - offset <= maxdata;
             var no, blocks := i % 256, if i % 256 > 0 then offset / 32 else (|frame| + 31) / 32;
             && f.data == (if last then frame[offset..|frame|] else frame[offset..At(maxdata, i + 1)])
             && f.length == |f.data| + 4 && f.mbxtype % 16 == 2
             && (mbx_cnt <= 7 ==> f.mbxtype / 16 == (mbx_cnt + i) % 7 + 1)
             && f.frameinfo1 == 16 * (port % 16) + (if last then 256 else 0)
             && f.frameinfo2 % 64 == no % 64 && f.frameinfo2 / 64 % 64 == blocks % 64
             && f.frameinfo2 / 4096 == (txframeno + (i / 256 + 1)) % 256 % 16
    ensures IsMailbox(f, i, frame, maxdata, port, mbx_cnt, txframeno)
  {
    hide At;
  }

  lemma {:induction false} SplitFrom(
    frame: seq<byte>, maxdata: nat, port: nat, mbx_cnt: nat, txframeno: nat, m: nat, i: nat)
    requires Sendable(maxdata, frame) && At(maxdata, m) <= |frame| && m <= i
    requires i - m < |Split(frame, maxdata, port, (txframeno + Starts(m)) % 256, CounterAt(mbx_cnt, m), m % 256,
                            At(maxdata, m))|
    ensures At(maxdata, i) <= |frame|
    ensures var fs := Split(frame, maxdata, port, (txframeno + Starts(m)) % 256, CounterAt(mbx_cnt, m), m % 256,
                            At(maxdata, m));
            && IsMailbox(fs[i - m], i, frame, maxdata, port, mbx_cnt, txframeno)
            && (i - m == |fs| - 1 <==> |frame| - At(maxdata, i) <= maxdata)
    decreases i - m
  {
    hide Split;
    hide Counted;
    hide Starts;
    hide At;
    hide FragmentOf;
    hide IsMailbox;
    var frameno, cnt, no, offset := (txframeno + Starts(m)) % 256, CounterAt(mbx_cnt, m), m % 256, At(maxdata, m);
    SplitStep(frame, maxdata, port, frameno, cnt, no, offset);
    OneMoreFragment(txframeno, m);
    AtNext(maxdata, m);
    var size := ChunkSize(maxdata, |frame| - offset);
    var f := FragmentOf(frame, port, Counted(frameno, no), NextMbxCnt(cnt), no, offset, size);
    hide NextMbxCnt;
    BuiltIsMailbox(f, m, frame, maxdata, port, mbx_cnt, txframeno);
    if size != |frame| - offset {
      var rest := Split(frame, maxdata, port, (txframeno + Starts(m + 1)) % 256, CounterAt(mbx_cnt, m + 1),
                        (m + 1) % 256, At(maxdata, m + 1));
      if m < i {
        SplitFrom(frame, maxdata, port, mbx_cnt, txframeno, m + 1, i);
      }
    }
  }

  lemma {:induction false} NothingSent(maxdata: nat, mbx_cnt: nat, txframeno: nat)
    requires txframeno < 256
    ensures (txframeno + Starts(0)) % 256 == txframeno && CounterAt(mbx_cnt, 0) == mbx_cnt
    ensures 0 % 256 == 0 && At(maxdata, 0) == 0
  {
    NoStart();
    AtNext(maxdata, 0);
  }

  /** The mailboxes of a frame, and the last one of them. */
  lemma {:induction false} SplitIsMailboxes(
    frame: seq<byte>, maxdata: nat, port: nat, mbx_cnt: nat, txframeno: nat, i: nat)
    requires Sendable(maxdata, frame) && txframeno < 256
    requires i < |Split(frame, maxdata, port, txframeno, mbx_cnt, 0, 0)|
    ensures At(maxdata, i) <= |frame|
    ensures var fs := Split(frame, maxdata, port, txframeno, mbx_cnt, 0, 0);
            && IsMailbox(fs[i], i, frame, maxdata, port, mbx_cnt, txframeno)
            && (i == |fs| - 1 <==> |frame| - At(maxdata, i) <= maxdata)
  {
    hide *;
    NothingSent(maxdata, mbx_cnt, txframeno);
    SplitFrom(frame, maxdata, port, mbx_cnt, txframeno, 0, i);
  }

  lemma {:induction false} StartsIs(i: nat)
    ensures Starts(i + 1) == i / 256 + 1
  {
  }

  lemma {:induction false} TypeIs(cnt: nat)
    ensures (ECT_MBXT_EOE + 16 * cnt) % 16 == 2 && (ECT_MBXT_EOE + 16 * cnt) / 16 == cnt
  {
  }

  lemma {:induction false} Word1Is(port: nat, last: bool)
    ensures Info1(port, last) == 16 * (port % 16) + (if last then 256 else 0)
  {
  }

  lemma {:induction false} Word2Is(no: nat, blocks: nat, frameno: nat)
    ensures var w := Info2(no, blocks, frameno);
            w % 64 == no % 64 && w / 64 % 64 == blocks % 64 && w / 4096 == frameno % 16
  {
    FieldsReadBack(0, false, no, blocks, frameno);
  }

  /** Every fragment fits the mailbox. */
  lemma {:induction false} FragmentsFit(
    frame: seq<byte>, maxdata: nat, port: nat, frameno: nat, cnt: nat, no: nat, offset: nat)
    requires Sendable(maxdata, frame) && offset <= |frame|
    ensures forall f :: f in Split(frame, maxdata, port, frameno, cnt, no, offset) ==>
      f.length == 4 + |f.data| <= 4 + maxdata
    decreases |frame| - offset
  {
    var size := ChunkSize(maxdata, |frame| - offset);
    if size != |frame| - offset {
      FragmentsFit(frame, maxdata, port, Counted(frameno, no), NextMbxCnt(cnt), (no + 1) % 256, offset + size);
    }
  }

  // Receiving

  /** The variables of the receiver, and its buffer, of which `psize` bytes may be used. */
  datatype Rx = Rx(fragmentno: nat, framesize: nat, frameoffset: nat, frameno: nat, psize: nat, buf: seq<byte>)

  function Reset(r: Rx): Rx {
    r.(fragmentno := 0, framesize := 0, frameoffset := 0, frameno := 0)
  }

  /** Data bytes of a fragment; the length field is 16 bits wide. */
  function DataSize(f: Fragment): nat {
    (f.length + 0xfffc) % 0x1_0000
  }

  /** The mailbox is large enough for the data it announces, and the buffer for what is used. */
  ghost predicate Readable(r: Rx, f: Fragment) {
    |f.data| >= DataSize(f) && r.psize <= |r.buf|
  }

  /** Stores the data of a fragment, if the frame and the buffer have room for them. */
  function StoreData(r: Rx, f: Fragment): Rx
    requires Readable(r, f)
  {
    var n := DataSize(f);
    if r.frameoffset + n <= r.framesize && r.frameoffset + n <= r.psize then
      r.(buf := r.buf[..r.frameoffset] + f.data[..n] + r.buf[r.frameoffset + n..],
         frameoffset := r.frameoffset + n, fragmentno := (r.fragmentno + 1) % 256)
    else r
  }

  /** Ends the frame: its size is reported, without the time stamp if there is one. */
  function EndFrame(r: Rx, f: Fragment): Rx {
    Reset(r).(psize := if HasTime(f.frameinfo1) then (r.frameoffset + 0xfffc) % 0x1_0000 else r.frameoffset)
  }

  /** Takes one fragment; 0 if more are needed, 1 if the frame is complete, or an error. */
  function ReadFragment(r: Rx, f: Fragment): (Rx, int)
    requires Readable(r, f)
  {
    var no := FragNoGet(f.frameinfo2);
    if f.mbxtype % 16 != ECT_MBXT_EOE then (r, PACKET_ERROR)
    else
      var r1 := if r.fragmentno != no && r.fragmentno != 0 then Reset(r) else r;
      if r.fragmentno != no && no > 0 then (r1, INVALID_RX_DATA)
      else if r1.fragmentno != 0
        && (r1.frameno != FrameNoGet(f.frameinfo2) || r1.frameoffset != 32 * OffsetGet(f.frameinfo2)) then
        (Reset(r1), INVALID_RX_DATA)
      else
        var r2 := if r1.fragmentno == 0 then
                    r1.(framesize := 32 * OffsetGet(f.frameinfo2), frameoffset := 0,
                      frameno := FrameNoGet(f.frameinfo2))
                  else r1;
        var r3 := StoreData(r2, f);
        if IsLast(f.frameinfo1) then (EndFrame(r3, f), 1) else (r3, 0)
  }

  /** What one mailbox does to the receiver, told by the bits of its words: a mailbox of another
      protocol changes nothing; a fragment other than the expected one that does not begin a frame, or
      one of another frame or from another place, is refused and ends what was begun; and of any other
      the data are stored if the announced size and the buffer have room, and the last one ends the
      frame, of which the time stamp is cut off. */
  ghost predicate TakenAs(before: Rx, f: Fragment, after: Rx, wkc: int)
    requires Readable(before, f)
  {
    var no, blocks, frameno := f.frameinfo2 % 64, f.frameinfo2 / 64 % 64, f.frameinfo2 / 4096 % 16;
    var n := if f.length >= 4 then (f.length - 4) % 0x1_0000 else (f.length + 0xfffc) % 0x1_0000;
    var offset, size := if no == 0 then 0 else before.frameoffset, if no == 0 then 32 * blocks else before.framesize;
    var stored := offset + n <= size && offset + n <= before.psize;
    var end := if stored then offset + n else offset;
    if f.mbxtype % 16 != 2 then after == before && wkc == -3
    else if no > 0 && no != before.fragmentno then
      && wkc == -11 && after.buf == before.buf && after.psize == before.psize
      && (if before.fragmentno == 0 then after == before else Idle(after))
    else if no > 0 && (frameno != before.frameno || 32 * blocks != before.frameoffset) then
      wkc == -11 && after.buf == before.buf && after.psize == before.psize && Idle(after)
    else
      && StoredAt(before.buf, after.buf, f.data, offset, if stored then n else 0)
      && (if f.frameinfo1 / 256 % 2 == 1 then
            wkc == 1 && Idle(after)
              && after.psize == if f.frameinfo1 / 512 % 2 == 1 then (end + 0xfffc) % 0x1_0000 else end
          else
            && wkc == 0 && after.psize == before.psize && after.frameoffset == end && after.framesize == size
            && after.frameno == frameno && after.fragmentno == if stored then (no + 1) % 256 else no)
  }

  /** The receiver waits for the first fragment of a frame. */
  predicate Idle(r: Rx) {
    r.fragmentno == 0 && r.framesize == 0 && r.frameoffset == 0 && r.frameno == 0
  }

  /** `n` bytes of the data are in the buffer from `at` on, and nothing else is changed in it. */
  ghost predicate StoredAt(before: seq<byte>, after: seq<byte>, data: seq<byte>, at: nat, n: nat) {
    && |after| == |before| && n <= |data|
    && forall i :: 0 <= i < |before| ==> after[i] == if at <= i < at + n then data[i - at] else before[i]
  }

  lemma {:induction false} ReadIsTaken(r: Rx, f: Fragment)
    requires Readable(r, f)
    ensures var (r1, wkc) := ReadFragment(r, f); TakenAs(r, f, r1, wkc)
  {
    DataSizeIs(f.length);
    var no := FragNoGet(f.frameinfo2);
    StoreIs(r, f);
    StoreIs(r.(fragmentno := 0, framesize := 32 * OffsetGet(f.frameinfo2), frameoffset := 0,
               frameno := FrameNoGet(f.frameinfo2)), f);
    hide StoreData;
    hide StoredAt;
    hide DataSize;
  }

  lemma {:induction false} StoreIs(r: Rx, f: Fragment)
    requires Readable(r, f)
    ensures var r1, n := StoreData(r, f), DataSize(f);
            var stored := r.frameoffset + n <= r.framesize && r.frameoffset + n <= r.psize;
            && StoredAt(r.buf, r1.buf, f.data, r.frameoffset, if stored then n else 0)
            && r1.frameoffset == (if stored then r.frameoffset + n else r.frameoffset)
            && r1.fragmentno == (if stored then (r.fragmentno + 1) % 256 else r.fragmentno)
            && r1.framesize == r.framesize && r1.psize == r.psize && r1.frameno == r.frameno
  {
    hide DataSize;
  }

  lemma {:induction false} DataSizeIs(length: nat)
    ensures length >= 4 ==> (length + 0xfffc) % 0x1_0000 == (length - 4) % 0x1_0000
  {
    assert length + 0xfffc == length - 4 + 0x1_0000;
  }

  // Round trip

  ghost predicate AllReadable(fs: seq<Fragment>) {
    forall f :: f in fs ==> |f.data| >= DataSize(f)
  }

  /** Takes fragments until a frame is complete, something is wrong, or there are no more. */
  ghost function ReadAll(r: Rx, fs: seq<Fragment>): (Rx, int)
    requires AllReadable(fs) && r.psize <= |r.buf|
    decreases |fs|
  {
    if fs == [] then (r, 0)
    else
      var (r1, wkc) := ReadFragment(r, fs[0]);
      if wkc != 0 then (r1, wkc) else
      ReadStaysReadable(r, fs[0]);
      ReadAll(r1, fs[1..])
  }

  lemma {:induction false} ReadStaysReadable(r: Rx, f: Fragment)
    requires Readable(r, f)
    ensures var (r1, wkc) := ReadFragment(r, f);
            |r1.buf| == |r.buf| && (wkc != 1 ==> r1.psize == r.psize)
  {
  }

  function Blocks(n: nat): nat {
    (n + 31) / 32
  }

  /** The receiver has the first `offset` bytes of the frame, and expects fragment `no`. */
  ghost predicate Inside(r: Rx, frame: seq<byte>, frameno: nat, no: nat, offset: nat) {
    && r.psize <= |r.buf| && offset <= |frame| <= r.psize
    && r.fragmentno == no && r.frameoffset == offset && r.frameno == frameno % 16
    && r.framesize == 32 * Blocks(|frame|) && r.buf[..offset] == frame[..offset]
  }

  /** The frame is in the buffer, its size is reported, and the receiver is ready for the next. */
  ghost predicate Delivered(r0: Rx, r: Rx, frame: seq<byte>) {
    && |r.buf| == |r0.buf| && r.psize == |frame| <= |r.buf| && r.buf[..|frame|] == frame
    && r.buf[|frame|..] == r0.buf[|frame|..]
    && r.fragmentno == r.framesize == r.frameoffset == r.frameno == 0
  }

  /** The receiver starts a frame, or goes on with it. */
  ghost predicate Expects(r: Rx, frame: seq<byte>, frameno: nat, no: nat, offset: nat) {
    if no == 0 then offset == 0 && |frame| <= r.psize <= |r.buf| else Inside(r, frame, frameno, no, offset)
  }

  lemma {:induction false} SizeReadBack(size: nat)
    requires size < 0xfffc
    ensures (4 + size + 0xfffc) % 0x1_0000 == size
  {
  }

  /** What the receiver has when it stores the data of a fragment that it expects. */
  ghost function Opened(r: Rx, frame: seq<byte>, frameno: nat, no: nat): Rx {
    if no == 0 then r.(fragmentno := 0, framesize := 32 * Blocks(|frame|), frameoffset := 0, frameno := frameno % 16)
    else r
  }

  /** An expected fragment passes all checks of the receiver. */
  lemma {:induction false} ChecksPass(
    r: Rx, frame: seq<byte>, port: nat, frameno: nat, cnt: nat, no: nat, offset: nat, size: nat)
    requires |frame| <= FRAME_LIMIT && offset + size <= |frame| && offset % 32 == 0 && 32 * no <= offset
    requires Expects(r, frame, frameno, no, offset) && size < 0xfffc
    ensures var f := FragmentOf(frame, port, frameno, cnt, no, offset, size);
            && DataSize(f) == size && Readable(r, f)
            && var r3 := StoreData(Opened(r, frame, frameno, no), f);
               ReadFragment(r, f) == if offset + size == |frame| then (EndFrame(r3, f), 1) else (r3, 0)
  {
    hide Info1;
    hide Info2;
    hide IsLast;
    hide HasTime;
    hide FragNoGet;
    hide OffsetGet;
    hide FrameNoGet;
    hide StoreData;
    hide EndFrame;
    var blocks := if no > 0 then offset / 32 else Blocks(|frame|);
    SmallBlocks(|frame|, offset, no);
    SizeReadBack(size);
    TypeReadBack(cnt);
    FieldsReadBack(port, offset + size == |frame|, no, blocks, frameno);
    hide Blocks;
  }

  /** Numbers and block counts of such a frame fit their six bits. */
  lemma {:induction false} SmallBlocks(n: nat, offset: nat, no: nat)
    requires offset <= n <= FRAME_LIMIT && offset % 32 == 0 && 32 * no <= offset
    ensures no % 64 == no && (offset / 32) % 64 == offset / 32 && Blocks(n) % 64 == Blocks(n)
    ensures 32 * (offset / 32) == offset
  {
  }

  lemma {:induction false} BlocksCover(n: nat)
    ensures 32 * Blocks(n) >= n
  {
  }

  /** The data of an expected fragment are stored where they belong. */
  lemma {:induction false} DataFit(
    r: Rx, frame: seq<byte>, port: nat, frameno: nat, cnt: nat, no: nat, offset: nat, size: nat)
    requires |frame| <= FRAME_LIMIT && offset + size <= |frame| && 32 * no <= offset && size < 0xfffc
    requires Expects(r, frame, frameno, no, offset)
    ensures var f := FragmentOf(frame, port, frameno, cnt, no, offset, size);
            var q := Opened(r, frame, frameno, no);
            && Readable(q, f) && var r3 := StoreData(q, f);
               && Inside(r3, frame, frameno, no + 1, offset + size)
               && r3.buf[offset + size..] == r.buf[offset + size..] && |r3.buf| == |r.buf| && r3.psize == r.psize
  {
    hide Info1;
    hide Info2;
    SizeReadBack(size);
    BlocksCover(|frame|);
    hide Blocks;
    var f := FragmentOf(frame, port, frameno, cnt, no, offset, size);
    var q := Opened(r, frame, frameno, no);
    assert DataSize(f) == size == |f.data|;
    hide DataSize;
    assert f.data[..size] == f.data;
    assert q.frameoffset == offset && q.buf == r.buf;
    DataInPlace(q.buf, frame, f.data, offset);
  }

  lemma {:induction false} DataInPlace(buf: seq<byte>, frame: seq<byte>, data: seq<byte>, offset: nat)
    requires offset + |data| <= |frame| <= |buf| && data == frame[offset..offset + |data|]
    requires buf[..offset] == frame[..offset]
    ensures var end := offset + |data|;
            var b := buf[..offset] + data + buf[end..];
            |b| == |buf| && b[..end] == frame[..end] && b[end..] == buf[end..]
  {
    var end := offset + |data|;
    assert (buf[..offset] + data + buf[end..])[..end] == frame[..offset] + frame[offset..end] == frame[..end];
  }

  /** One expected fragment: the frame is complete with the last one, and grows with any other. */
  lemma {:induction false} FragmentTaken(
    r: Rx, frame: seq<byte>, port: nat, frameno: nat, cnt: nat, no: nat, offset: nat, size: nat)
    requires |frame| <= FRAME_LIMIT && offset + size <= |frame| && offset % 32 == 0 && 32 * no <= offset
      && size < 0xfffc
    requires Expects(r, frame, frameno, no, offset)
    ensures var f := FragmentOf(frame, port, frameno, cnt, no, offset, size);
            && Readable(r, f) && var (r1, wkc) := ReadFragment(r, f);
               && |r1.buf| == |r.buf| && r1.buf[offset + size..] == r.buf[offset + size..]
               && if offset + size == |frame| then wkc == 1 && Delivered(r, r1, frame)
                  else wkc == 0 && Inside(r1, frame, frameno, no + 1, offset + size)
  {
    ChecksPass(r, frame, port, frameno, cnt, no, offset, size);
    DataFit(r, frame, port, frameno, cnt, no, offset, size);
    FieldsReadBack(port, offset + size == |frame|, no, if no > 0 then offset / 32 else Blocks(|frame|), frameno);
    hide ReadFragment;
    hide StoreData;
    hide Opened;
    hide HasTime;
    hide Info1;
    hide Info2;
  }

  lemma {:induction false} SplitIsReadable(
    frame: seq<byte>, maxdata: nat, port: nat, frameno: nat, cnt: nat, no: nat, offset: nat)
    requires Sendable(maxdata, frame) && offset <= |frame| && maxdata < 0xfffc
    ensures AllReadable(Split(frame, maxdata, port, frameno, cnt, no, offset))
  {
    FragmentsFit(frame, maxdata, port, frameno, cnt, no, offset);
    forall f | f in Split(frame, maxdata, port, frameno, cnt, no, offset) ensures |f.data| >= DataSize(f) {
      SizeReadBack(|f.data|);
    }
  }

  /** From a fragment the receiver expects on, the rest of the fragments deliver the frame. */
  lemma {:induction false} RestDelivers(
    r: Rx, frame: seq<byte>, maxdata: nat, port: nat, frameno: nat, cnt: nat, no: nat, offset: nat)
    requires Sendable(maxdata, frame) && maxdata < 0xfffc && |frame| <= FRAME_LIMIT
    requires offset <= |frame| && offset % 32 == 0 && 32 * no <= offset && (no > 0 ==> offset < |frame|)
    requires Expects(r, frame, Counted(frameno, no), no, offset)
    ensures var fs := Split(frame, maxdata, port, frameno, cnt, no, offset);
            && AllReadable(fs) && r.psize <= |r.buf|
            && var (r', wkc) := ReadAll(r, fs);
               wkc == 1 && Delivered(r, r', frame)
    decreases |frame| - offset
  {
    hide Split;
    hide FragmentOf;
    hide ReadFragment;
    hide ReadAll;
    hide AllReadable;
    hide Readable;
    hide Delivered;
    hide DataSize;
    hide StoreData;
    var counted := Counted(frameno, no);
    SplitIsReadable(frame, maxdata, port, frameno, cnt, no, offset);
    SplitStep(frame, maxdata, port, frameno, cnt, no, offset);
    var size := ChunkSize(maxdata, |frame| - offset);
    var f := FragmentOf(frame, port, counted, NextMbxCnt(cnt), no, offset, size);
    FragmentTaken(r, frame, port, counted, NextMbxCnt(cnt), no, offset, size);
    if offset + size < |frame| {
      assert size % 32 == 0 by { ChunkIsBlocks(maxdata, |frame| - offset); }
      var rest := Split(frame, maxdata, port, counted, NextMbxCnt(cnt), no + 1, offset + size);
      SplitIsReadable(frame, maxdata, port, counted, NextMbxCnt(cnt), no + 1, offset + size);
      ReadFirst(r, f, rest);
      var r1 := ReadFragment(r, f).0;
      RestDelivers(r1, frame, maxdata, port, counted, NextMbxCnt(cnt), no + 1, offset + size);
      DeliveredLater(r, r1, ReadAll(r1, rest).0, frame, offset + size);
    } else {
      SplitIsReadable(frame, maxdata, port, frameno, cnt, no, offset);
      assert [f] + [] == [f];
      ReadFirst(r, f, []);
    }
  }

  lemma {:induction false} ChunkIsBlocks(maxdata: nat, rest: nat)
    ensures ChunkSize(maxdata, rest) < rest ==> ChunkSize(maxdata, rest) % 32 == 0
  {
  }

  lemma {:induction false} ReadFirst(r: Rx, f: Fragment, rest: seq<Fragment>)
    requires Readable(r, f) && AllReadable([f] + rest)
    ensures AllReadable(rest)
    ensures var (r1, wkc) := ReadFragment(r, f);
            r1.psize <= |r1.buf| && wkc == 0 ==> ReadAll(r, [f] + rest) == ReadAll(r1, rest)
    ensures ReadFragment(r, f).1 != 0 ==> ReadAll(r, [f] + rest) == ReadFragment(r, f)
  {
    hide ReadFragment;
    hide DataSize;
    var fs := [f] + rest;
    assert fs[0] == f && fs[1..] == rest;
    forall g | g in rest ensures g in fs {
    }
  }

  lemma {:induction false} DeliveredLater(r: Rx, r1: Rx, r': Rx, frame: seq<byte>, offset: nat)
    requires offset <= |frame| <= |r.buf| == |r1.buf| && r1.buf[offset..] == r.buf[offset..] && Delivered(r1, r', frame)
    ensures Delivered(r, r', frame)
  {
    assert r1.buf[|frame|..] == r1.buf[offset..][|frame| - offset..] == r.buf[|frame|..];
  }

  // Frames that are too long

  ghost predicate Bounded(r: Rx) {
    r.frameoffset <= r.framesize <= FRAME_LIMIT && r.frameoffset <= r.psize <= |r.buf|
  }

  /** The receiver never reports more bytes than header fields can count, or than the buffer has. */
  lemma {:induction false} ReadBounded(r: Rx, f: Fragment)
    requires Readable(r, f) && !HasTime(f.frameinfo1) && (Bounded(r) || FragNoGet(f.frameinfo2) == 0)
    ensures var (r1, wkc) := ReadFragment(r, f);
            && (wkc == 0 ==> Bounded(r1) && r1.psize == r.psize)
            && (wkc == 1 ==> r1.psize <= FRAME_LIMIT && r1.psize <= r.psize)
  {
    hide HasTime;
    hide IsLast;
    hide DataSize;
    hide FrameNoGet;
  }

  lemma {:induction false} PlainFragment(
    r: Rx, frame: seq<byte>, port: nat, frameno: nat, cnt: nat, no: nat, offset: nat, size: nat)
    requires offset + size <= |frame| && size < 0xfffc && r.psize <= |r.buf|
    ensures var f := FragmentOf(frame, port, frameno, cnt, no, offset, size);
            Readable(r, f) && !HasTime(f.frameinfo1) && (no == 0 ==> FragNoGet(f.frameinfo2) == 0)
  {
    FieldsReadBack(port, offset + size == |frame|, no, if no > 0 then offset / 32 else (|frame| + 31) / 32, frameno);
    SizeReadBack(size);
    hide HasTime;
    hide FragNoGet;
    hide Info1;
    hide Info2;
  }

  lemma {:induction false} AllBounded(
    r: Rx, frame: seq<byte>, maxdata: nat, port: nat, frameno: nat, cnt: nat, no: nat, offset: nat)
    requires Sendable(maxdata, frame) && offset <= |frame| && maxdata < 0xfffc
    requires r.psize <= |r.buf| && (Bounded(r) || no == 0)
    ensures var fs := Split(frame, maxdata, port, frameno, cnt, no, offset);
            AllReadable(fs) && var (r', wkc) := ReadAll(r, fs); wkc == 1 ==>
              r'.psize <= FRAME_LIMIT && r'.psize <= r.psize
    decreases |frame| - offset
  {
    hide Split;
    hide FragmentOf;
    hide ReadFragment;
    hide ReadAll;
    hide AllReadable;
    hide Readable;
    hide HasTime;
    hide FragNoGet;
    hide NextMbxCnt;
    hide ChunkSize;
    var counted, next := Counted(frameno, no), (no + 1) % 256;
    var size := ChunkSize(maxdata, |frame| - offset);
    SplitIsReadable(frame, maxdata, port, frameno, cnt, no, offset);
    SplitStep(frame, maxdata, port, frameno, cnt, no, offset);
    var f := FragmentOf(frame, port, counted, NextMbxCnt(cnt), no, offset, size);
    PlainFragment(r, frame, port, counted, NextMbxCnt(cnt), no, offset, size);
    ReadBounded(r, f);
    hide Bounded;
    if size < |frame| - offset {
      var rest := Split(frame, maxdata, port, counted, NextMbxCnt(cnt), next, offset + size);
      ReadFirst(r, f, rest);
      if ReadFragment(r, f).1 == 0 {
        BoundedFits(ReadFragment(r, f).0);
        AllBounded(ReadFragment(r, f).0, frame, maxdata, port, counted, NextMbxCnt(cnt), next, offset + size);
      }
    } else {
      assert [f] + [] == [f];
      ReadFirst(r, f, []);
      NothingToRead(ReadFragment(r, f).0);
    }
  }

  lemma {:induction false} BoundedFits(r: Rx)
    requires Bounded(r)
    ensures r.psize <= |r.buf|
  {
  }

  lemma {:induction false} NothingToRead(r: Rx)
    ensures AllReadable([]) && (r.psize <= |r.buf| ==> ReadAll(r, []) == (r, 0))
  {
  }

  /** Split and put together again, from any state of the receiver: it gets exactly the frame if
      and only if the frame has at most 2016 bytes and the buffer has room for it. */
  lemma {:induction false} FrameArrives(r: Rx, frame: seq<byte>, maxdata: nat, port: nat, frameno: nat, cnt: nat)
    requires Sendable(maxdata, frame) && maxdata < 0xfffc && r.psize <= |r.buf|
    ensures var fs := Split(frame, maxdata, port, frameno, cnt, 0, 0);
            && AllReadable(fs)
            && ((ReadAll(r, fs).1 == 1 && Delivered(r, ReadAll(r, fs).0, frame))
                <==> |frame| <= FRAME_LIMIT && |frame| <= r.psize)
  {
    SplitIsReadable(frame, maxdata, port, frameno, cnt, 0, 0);
    AllBounded(r, frame, maxdata, port, frameno, cnt, 0, 0);
    if |frame| <= FRAME_LIMIT && |frame| <= r.psize {
      RestDelivers(r, frame, maxdata, port, frameno, cnt, 0, 0);
    }
    hide Split;
    hide ReadAll;
    hide AllReadable;
  }

  /** A frame just above the limit, over any mailbox there is: its first fragment announces
      sixty-four blocks, which are read back as none, so nothing is stored, and the second fragment
      is refused. */
  lemma {:induction false} LongFrameIsLost(
    r: Rx, frame: seq<byte>, maxdata: nat, port: nat, frameno: nat, cnt: nat)
    requires FRAME_LIMIT < |frame| <= FRAME_LIMIT + 32 && 32 <= maxdata <= EC_MAXMBX - 10 && r.psize <= |r.buf|
    ensures var fs := Split(frame, maxdata, port, frameno, cnt, 0, 0);
            && AllReadable(fs) && var (r', wkc) := ReadAll(r, fs);
               wkc == INVALID_RX_DATA && r'.buf == r.buf
  {
    hide ReadAll;
    hide AllReadable;
    hide ReadFragment;
    hide DataSize;
    hide Split;
    hide FragmentOf;
    hide FragNoGet;
    hide OffsetGet;
    hide IsLast;
    hide Readable;
    hide ChunkSize;
    var size, counted := ChunkSize(maxdata, |frame|), Counted(frameno, 0);
    LongChunk(maxdata, |frame|);
    SplitIsReadable(frame, maxdata, port, frameno, cnt, 0, 0);
    SplitStep(frame, maxdata, port, frameno, cnt, 0, 0);
    var rest := Split(frame, maxdata, port, counted, NextMbxCnt(cnt), 1, size);
    SplitIsReadable(frame, maxdata, port, counted, NextMbxCnt(cnt), 1, size);
    SplitStep(frame, maxdata, port, counted, NextMbxCnt(cnt), 1, size);
    var f := FragmentOf(frame, port, counted, NextMbxCnt(cnt), 0, 0, size);
    FirstIsEmpty(frame, port, counted, NextMbxCnt(cnt), size, r);
    NothingStored(r, f);
    ReadFirst(r, f, rest);
    var r1 := ReadFragment(r, f).0;
    var size2 := ChunkSize(maxdata, |frame| - size);
    var f2 := FragmentOf(frame, port, counted, NextMbxCnt(NextMbxCnt(cnt)), 1, size, size2);
    SecondNumber(frame, port, counted, NextMbxCnt(NextMbxCnt(cnt)), size, size2, r1);
    NotExpected(r1, f2);
    ReadFirst(r1, f2, rest[1..]);
    assert rest == [f2] + rest[1..];
  }

  lemma {:induction false} LongChunk(maxdata: nat, n: nat)
    requires FRAME_LIMIT < n && 32 <= maxdata <= EC_MAXMBX - 10
    ensures var size := ChunkSize(maxdata, n); 32 <= size < n && size < 0xfffc
    ensures ChunkSize(maxdata, n - ChunkSize(maxdata, n)) < 0xfffc
  {
  }

  lemma {:induction false} TypeReadBack(cnt: nat)
    ensures (ECT_MBXT_EOE + 16 * cnt) % 16 == ECT_MBXT_EOE
  {
  }

  /** The first fragment of such a frame has number 0, announces no block and is not the last. */
  lemma {:induction false} FirstIsEmpty(frame: seq<byte>, port: nat, frameno: nat, cnt: nat, size: nat, r: Rx)
    requires FRAME_LIMIT < |frame| <= FRAME_LIMIT + 32 && 0 < size < |frame| && size < 0xfffc && r.psize <= |r.buf|
    ensures var f := FragmentOf(frame, port, frameno, cnt, 0, 0, size);
            && DataSize(f) == size && Readable(r, f) && f.mbxtype % 16 == ECT_MBXT_EOE
            && FragNoGet(f.frameinfo2) == 0 && OffsetGet(f.frameinfo2) == 0 && !IsLast(f.frameinfo1)
  {
    hide Info1;
    hide Info2;
    hide IsLast;
    hide HasTime;
    hide FragNoGet;
    hide OffsetGet;
    hide FrameNoGet;
    assert (|frame| + 31) / 32 == 64;
    FieldsReadBack(port, false, 0, 64, frameno);
    SizeReadBack(size);
    TypeReadBack(cnt);
  }

  lemma {:induction false} SecondNumber(
    frame: seq<byte>, port: nat, frameno: nat, cnt: nat, offset: nat, size: nat, r: Rx)
    requires offset + size <= |frame| && size < 0xfffc && r.psize <= |r.buf|
    ensures var f := FragmentOf(frame, port, frameno, cnt, 1, offset, size);
            Readable(r, f) && f.mbxtype % 16 == ECT_MBXT_EOE && FragNoGet(f.frameinfo2) == 1
  {
    hide Info1;
    hide Info2;
    hide FragNoGet;
    hide OffsetGet;
    hide FrameNoGet;
    FieldsReadBack(port, offset + size == |frame|, 1, offset / 32, frameno);
    SizeReadBack(size);
    TypeReadBack(cnt);
  }

  /** A frame of no blocks begins: nothing of the data fits it. */
  lemma {:induction false} NothingStored(r: Rx, f: Fragment)
    requires Readable(r, f) && f.mbxtype % 16 == ECT_MBXT_EOE && DataSize(f) > 0
    requires FragNoGet(f.frameinfo2) == OffsetGet(f.frameinfo2) == 0 && !IsLast(f.frameinfo1)
    ensures var (r', wkc) := ReadFragment(r, f);
            wkc == 0 && r'.fragmentno == 0 && r'.buf == r.buf && r'.psize == r.psize
  {
    hide DataSize;
    hide FragNoGet;
    hide OffsetGet;
    hide FrameNoGet;
    hide IsLast;
  }

  /** Between frames, a fragment that does not begin one is refused. */
  lemma {:induction false} NotExpected(r: Rx, f: Fragment)
    requires Readable(r, f) && f.mbxtype % 16 == ECT_MBXT_EOE && r.fragmentno == 0 < FragNoGet(f.frameinfo2)
    ensures ReadFragment(r, f) == (r, INVALID_RX_DATA)
  {
    hide FragNoGet;
  }

  /** The receiver as it is called, with its variables and its buffer in place. */
  class Receiver {
    var rxfragmentno: nat
    var rxframesize: nat
    var rxframeoffset: nat
    var rxframeno: nat
    var psize: nat
    const buf: array<byte>

    constructor (buf: array<byte>)
      ensures this.buf == buf && psize == buf.Length && rxfragmentno == 0
    {
      rxfragmentno, rxframesize, rxframeoffset, rxframeno := 0, 0, 0, 0;
      this.buf, psize := buf, buf.Length;
    }

    function View(): Rx
      reads this, buf
    {
      Rx(rxfragmentno, rxframesize, rxframeoffset, rxframeno, psize, buf[..])
    }

    method ResetFrame()
      modifies this`rxfragmentno, this`rxframesize, this`rxframeoffset, this`rxframeno
      ensures View() == Reset(old(View()))
    {
      rxfragmentno, rxframesize, rxframeoffset, rxframeno := 0, 0, 0, 0;
    }

    method EOEreadfragment(MbxIn: Fragment) returns (wkc: int)
      requires Readable(View(), MbxIn)
      modifies this, buf
      ensures (View(), wkc) == ReadFragment(old(View()), MbxIn)
      ensures TakenAs(old(View()), MbxIn, View(), wkc)
    {
      ReadIsTaken(View(), MbxIn);
      hide TakenAs;
      wkc := 0;
      if MbxIn.mbxtype % 16 == ECT_MBXT_EOE {
        var eoedatasize := (MbxIn.length + 0xfffc) % 0x1_0000;
        var frameinfo1, frameinfo2 := MbxIn.frameinfo1, MbxIn.frameinfo2;
        // is it the fragment that we expect?
        if rxfragmentno != FragNoGet(frameinfo2) {
          if rxfragmentno != 0 {
            ResetFrame();
          }
          // a lost beginning cannot be recovered
          if FragNoGet(frameinfo2) > 0 {
            return INVALID_RX_DATA;
          }
        }
        if rxfragmentno == 0 {
          rxframesize := 32 * OffsetGet(frameinfo2);
          rxframeoffset := 0;
          rxframeno := FrameNoGet(frameinfo2);
        } else {
          if rxframeno != FrameNoGet(frameinfo2) {
            ResetFrame();
            return INVALID_RX_DATA;
          } else if rxframeoffset != 32 * OffsetGet(frameinfo2) {
            ResetFrame();
            return INVALID_RX_DATA;
          }
        }
        StoreFragment(MbxIn, eoedatasize);
        if IsLast(frameinfo1) {
          if HasTime(frameinfo1) {
            rxframeoffset := (rxframeoffset + 0xfffc) % 0x1_0000;
          }
          psize := rxframeoffset;
          ResetFrame();
          wkc := 1;
        }
      } else {
        wkc := PACKET_ERROR;
      }
    }

    method StoreFragment(MbxIn: Fragment, eoedatasize: nat)
      requires Readable(View(), MbxIn) && eoedatasize == DataSize(MbxIn)
      modifies this`rxfragmentno, this`rxframeoffset, buf
      ensures View() == StoreData(old(View()), MbxIn)
    {
      if rxframeoffset + eoedatasize <= rxframesize && rxframeoffset + eoedatasize <= psize {
        forall i | 0 <= i < eoedatasize {
          buf[rxframeoffset + i] := MbxIn.data[i];
        }
        rxframeoffset := rxframeoffset + eoedatasize;
        rxfragmentno := (rxfragmentno + 1) % 256;
      }
    }
  }
}
