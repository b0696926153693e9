/** CANopen service data objects over EtherCAT (ec_coe.c): a parameter is sent in one frame or in
    segments, and put together again by the rules of the upload. Bit fields are written with
    division and remainder. */
module Sdo {
  import opened EcTypes

  const ECT_SDO_DOWN_INIT: nat := 0x21
  const ECT_SDO_DOWN_EXP: nat := 0x23
  const ECT_SDO_DOWN_INIT_CA: nat := 0x31

  /** One mailbox: the length field, the command byte, the announced size of the parameter (first
      frame only), and the bytes behind the header. */
  datatype Frame = Frame(length: nat, command: nat, size: nat, data: seq<byte>)

  predicate IsExpedited(command: nat) { command / 2 % 2 == 1 }

  predicate IsLast(command: nat) { command % 2 == 1 }

  function Toggle(command: nat): nat { command / 16 % 2 }

  function Unused(command: nat): nat { command / 2 % 8 }

  function Zeros(n: nat): (r: seq<byte>)
    ensures |r| == n
  {
    seq(n, i => 0 as byte)
  }

  // Sending

  /** The whole parameter in the command frame; its header counts the bytes that are not used. */
  function Expedited(p: seq<byte>): Frame
    requires |p| <= 4
  {
    Frame(0x0a, ECT_SDO_DOWN_EXP + 4 * ((4 - |p|) % 4), 0, p + Zeros(4 - |p|))
  }

  /** A segment; the last one is padded to seven bytes. */
  function Segment(data: seq<byte>, last: bool, toggle: nat): Frame {
    if last && |data| < 7 then Frame(0x0a, 1 + 2 * (7 - |data|) + 16 * toggle, 0, data + Zeros(7 - |data|))
    else Frame(|data| + 3, (if last then 1 else 0) + 16 * toggle, 0, data)
  }

  function Segments(p: seq<byte>, maxdata: nat, toggle: nat): (fs: seq<Frame>)
    requires maxdata >= 7
    ensures |fs| > 0
    decreases |p|
  {
    if |p| > maxdata then [Segment(p[..maxdata], false, toggle)] + Segments(p[maxdata..], maxdata, 1 - toggle % 2)
    else [Segment(p, true, toggle)]
  }

  /** The frames that download a parameter into a mailbox of `mbx_l` bytes. */
  function Download(p: seq<byte>, CA: bool, mbx_l: nat): (fs: seq<Frame>)
    requires mbx_l >= 16
    ensures |fs| > 0
  {
    var maxdata := mbx_l - 16;
    var command := if CA then ECT_SDO_DOWN_INIT_CA else ECT_SDO_DOWN_INIT;
    if |p| <= 4 && !CA then [Expedited(p)]
    else if |p| <= maxdata then [Frame(0x0a + |p|, command, |p|, p)]
    else [Frame(0x0a + maxdata, command, |p|, p[..maxdata])] + Segments(p[maxdata..], maxdata + 7, 0)
  }

  /** Fills one mailbox with the next segment of the parameter, which starts at `hp`. */
  method NextSegment(p: seq<byte>, hp: nat, maxdata: nat, toggle: nat)
      returns (f: Frame, NotLast: bool, framedatasize: nat)
    requires hp <= |p| && maxdata >= 7 && toggle <= 1
    ensures NotLast <==> |p| - hp > maxdata
    ensures framedatasize == if NotLast then maxdata else |p| - hp
    ensures f == Segment(p[hp..hp + framedatasize], !NotLast, toggle)
  {
    framedatasize := |p| - hp;
    NotLast := false;
    var Command := 0x01;
    var length;
    var padding: nat := 0;
    if framedatasize > maxdata {
      framedatasize := maxdata;
      NotLast := true;
      Command := 0x00;
    }
    if !NotLast && framedatasize < 7 {
      length := 0x0a;
      padding := 7 - framedatasize;
      Command := 0x01 + 2 * padding;
    } else {
      length := framedatasize + 3;
    }
    Command := Command + 16 * toggle;
    var data := p[hp..hp + framedatasize];
    f := Frame(length, Command, 0, if padding > 0 then data + Zeros(padding) else data);
  }

  lemma {:induction false} SegmentsStep(p: seq<byte>, hp: nat, maxdata: nat, toggle: nat)
    requires hp <= |p| && maxdata >= 7 && toggle <= 1
    ensures Segments(p[hp..], maxdata, toggle) ==
            if |p| - hp > maxdata then
              [Segment(p[hp..hp + maxdata], false, toggle)] + Segments(p[hp + maxdata..], maxdata, 1 - toggle)
            else [Segment(p[hp..|p|], true, toggle)]
  {
    var q := p[hp..];
    assert p[hp..|p|] == q;
    if |p| - hp > maxdata {
      assert q[..maxdata] == p[hp..hp + maxdata] && q[maxdata..] == p[hp + maxdata..];
    }
  }

  // The frames, field by field

  /** Frame `i` of a download. An expedited one has command 0x23, 0x2f, 0x2b, 0x27 or 0x23 for no byte
      up to four bytes. Otherwise the first frame has command 0x21, or 0x31 with complete access, and
      announces the size, and each segment has the toggle bit of its position, and the last one bit 0
      and how many of at least seven bytes are not used. */
  ghost predicate IsDownload(f: Frame, i: nat, p: seq<byte>, CA: bool, mbx_l: nat)
    requires mbx_l >= 16
  {
    if |p| <= 4 && !CA then
      && i == 0 && f.length == 10 && |f.data| == 4 && f.data[..|p|] == p
      && (forall j :: |p| <= j < 4 ==> f.data[j] == 0)
      && f.command == (if |p| == 1 then 0x2f else if |p| == 2 then 0x2b else if |p| == 3 then 0x27 else 0x23)
    else if i == 0 then
      && f.command == (if CA then 0x31 else 0x21) && f.size == |p|
      && f.length == 10 + |f.data| && f.data == (if |p| > mbx_l - 16 then p[..mbx_l - 16] else p)
    else
      && SegmentAt(mbx_l, i) <= |p|
      && IsSegment(f, p[SegmentAt(mbx_l, i)..], mbx_l - 9, (i - 1) % 2)
  }

  /** Where the data of segment `i` begin, behind the first frame and full segments. */
  function SegmentAt(mbx_l: nat, i: nat): nat
    requires mbx_l >= 16 && i > 0
  {
    mbx_l - 16 + Behind(i - 1, mbx_l - 9)
  }

  /** The bytes of `j` full segments. */
  function Behind(j: nat, size: nat): nat {
    j * size
  }

  ghost predicate IsSegment(f: Frame, rest: seq<byte>, maxdata: nat, toggle: nat) {
    if |rest| > maxdata then f.command == 16 * toggle && f.length == maxdata + 3 && f.data == rest[..maxdata]
    else if |rest| >= 7 then f.command == 16 * toggle + 1 && f.length == |rest| + 3 && f.data == rest
    else
      && f.command == 16 * toggle + 1 + 2 * (7 - |rest|) && f.length == 10
      && |f.data| == 7 && f.data[..|rest|] == rest
  }

  lemma {:induction false} SegmentsAt(p: seq<byte>, maxdata: nat, toggle: nat, j: nat)
    requires maxdata >= 7 && toggle <= 1 && j < |Segments(p, maxdata, toggle)|
    ensures Behind(j, maxdata) <= |p|
    ensures IsSegment(Segments(p, maxdata, toggle)[j], p[Behind(j, maxdata)..], maxdata, (toggle + j) % 2)
    decreases j
  {
    hide Segment;
    hide IsSegment;
    hide Behind;
    SegmentsStep(p, 0, maxdata, toggle);
    assert p[0..] == p;
    NoneBehind(maxdata);
    if j == 0 {
      SegmentIs(if |p| > maxdata then p[..maxdata] else p, p, maxdata, toggle);
      assert p[0..|p|] == p && (|p| > maxdata ==> p[0..maxdata] == p[..maxdata]);
    } else {
      SegmentsAt(p[maxdata..], maxdata, 1 - toggle, j - 1);
      OneLess(j, maxdata);
      assert p[maxdata..][Behind(j - 1, maxdata)..] == p[Behind(j, maxdata)..];
    }
  }

  lemma {:induction false} NoneBehind(size: nat)
    ensures Behind(0, size) == 0
  {
  }

  lemma {:induction false} OneLess(j: nat, size: nat)
    requires j > 0
    ensures Behind(j, size) == Behind(j - 1, size) + size
  {
  }

  lemma {:induction false} SegmentIs(data: seq<byte>, rest: seq<byte>, maxdata: nat, toggle: nat)
    requires maxdata >= 7 && toggle <= 1 && data == if |rest| > maxdata then rest[..maxdata] else rest
    ensures IsSegment(Segment(data, |rest| <= maxdata, toggle), rest, maxdata, toggle)
  {
  }

  lemma {:induction false} DownloadIs(p: seq<byte>, CA: bool, mbx_l: nat, i: nat)
    requires mbx_l >= 16 && i < |Download(p, CA, mbx_l)|
    ensures IsDownload(Download(p, CA, mbx_l)[i], i, p, CA, mbx_l)
  {
    hide IsSegment;
    hide Segments;
    hide SegmentAt;
    hide Expedited;
    if |p| <= 4 && !CA {
      ExpeditedIs(p);
    } else if i > 0 {
      LaterSegment(p, mbx_l, i);
    }
  }

  lemma {:induction false} LaterSegment(p: seq<byte>, mbx_l: nat, i: nat)
    requires mbx_l >= 16 && |p| > mbx_l - 16 && 0 < i <= |Segments(p[mbx_l - 16..], mbx_l - 9, 0)|
    ensures SegmentAt(mbx_l, i) <= |p|
    ensures IsSegment(Segments(p[mbx_l - 16..], mbx_l - 9, 0)[i - 1], p[SegmentAt(mbx_l, i)..], mbx_l - 9, (i - 1) % 2)
  {
    hide IsSegment;
    hide Segments;
    hide Behind;
    var rest := p[mbx_l - 16..];
    SegmentsAt(rest, mbx_l - 9, 0, i - 1);
    assert rest[Behind(i - 1, mbx_l - 9)..] == p[SegmentAt(mbx_l, i)..];
  }

  lemma {:induction false} ExpeditedIs(p: seq<byte>)
    requires |p| <= 4
    ensures var f := Expedited(p);
            && f.length == 10 && |f.data| == 4 && f.data[..|p|] == p
            && (forall j :: |p| <= j < 4 ==> f.data[j] == 0)
            && f.command == (if |p| == 1 then 0x2f else if |p| == 2 then 0x2b else if |p| == 3 then 0x27 else 0x23)
  {
  }

  /** Writes a parameter. The slave confirms the first `confirmed` frames and refuses the next. */
  method SDOwrite(p: seq<byte>, CA: bool, mbx_l: nat, confirmed: nat) returns (sent: seq<Frame>, wkc: int)
    requires mbx_l >= 16
    ensures var fs := Download(p, CA, mbx_l);
            if |fs| <= confirmed then sent == fs && wkc == 1 else sent == fs[..confirmed + 1] && wkc == 0
    // the frames that are sent
    ensures forall i :: 0 <= i < |sent| ==> IsDownload(sent[i], i, p, CA, mbx_l)
  {
    hide Segment;
    hide Expedited;
    hide IsDownload;
    ghost var fs := Download(p, CA, mbx_l);
    var maxdata := mbx_l - 0x10;
    if |p| <= 4 && !CA {
      sent := [Expedited(p)];
      wkc := if confirmed > 0 then 1 else 0;
    } else {
      var framedatasize := |p|;
      var NotLast := false;
      if framedatasize > maxdata {
        framedatasize := maxdata;
        NotLast := true;
      }
      var hp := framedatasize;
      sent := [Frame(0x0a + framedatasize, if CA then ECT_SDO_DOWN_INIT_CA else ECT_SDO_DOWN_INIT, |p|, p[..hp])];
      assert !NotLast ==> p[..hp] == p;
      wkc := if confirmed > 0 then 1 else 0;
      if wkc > 0 && NotLast {
        var segments;
        segments, wkc := WriteSegments(p, hp, maxdata + 7, confirmed - 1);
        sent := sent + segments;
      }
    }
    forall i | 0 <= i < |sent| ensures IsDownload(sent[i], i, p, CA, mbx_l) {
      DownloadIs(p, CA, mbx_l, i);
    }
  }

  /** Writes the rest of a parameter from `start` on in segments. */
  method WriteSegments(p: seq<byte>, start: nat, maxdata: nat, confirmed: nat) returns (sent: seq<Frame>, wkc: int)
    requires start <= |p| && maxdata >= 7
    ensures var fs := Segments(p[start..], maxdata, 0);
            if |fs| <= confirmed then sent == fs && wkc == 1 else sent == fs[..confirmed + 1] && wkc == 0
  {
    hide *;
    var hp, toggle: nat, NotLast := start, 0, true;
    sent, wkc := [], 1;
    ghost var fs := Segments(p[start..], maxdata, 0);
    ghost var todo := fs;
    while NotLast
      invariant hp <= |p| && toggle <= 1 && fs == sent + todo
      invariant wkc == 1 ==> |sent| <= confirmed && todo == if NotLast then Segments(p[hp..], maxdata, toggle) else []
      invariant wkc != 1 ==> !NotLast && wkc == 0 && |sent| == confirmed + 1
      decreases |p| - hp, NotLast
    {
      SegmentsStep(p, hp, maxdata, toggle);
      var f, framedatasize;
      f, NotLast, framedatasize := NextSegment(p, hp, maxdata, toggle);
      hp := hp + framedatasize;
      todo := if NotLast then Segments(p[hp..], maxdata, 1 - toggle) else [];
      Shift(sent, f, todo);
      sent := sent + [f];
      if |sent| > confirmed {
        // an abort, or an unexpected reply
        wkc := 0;
        NotLast := false;
      }
      toggle := 1 - toggle;
    }
  }

  // Receiving

  /** Takes the segments of an upload until the last one: all bytes, and the working counter. */
  function TakeSegments(fs: seq<Frame>, data: seq<byte>): (seq<byte>, int)
    decreases |fs|
  {
    if fs == [] then (data, 0)
    else
      var f := fs[0];
      if f.command / 32 % 8 != 0 || f.length < 3 || |f.data| < f.length - 3 then (data, 0)
      else
        var n: nat := f.length - 3;
        if IsLast(f.command) then
          var used := if n == 7 then n - Unused(f.command) else n;
          (data + f.data[..used], 1)
        else TakeSegments(fs[1..], data + f.data[..n])
  }

  /** Puts a parameter together by the rules of the upload; 0 if the buffer is too small. */
  function Upload(fs: seq<Frame>, buffersize: nat): (seq<byte>, int) {
    if fs == [] then ([], 0)
    else
      var f := fs[0];
      if IsExpedited(f.command) then
        var bytesize := 4 - f.command / 4 % 4;
        if buffersize >= bytesize && |f.data| >= bytesize then (f.data[..bytesize], 1) else ([], 0)
      else if f.size > buffersize || f.length < 10 then ([], 0)
      else if f.length - 10 < f.size then
        if |f.data| >= f.length - 10 then TakeSegments(fs[1..], f.data[..f.length - 10]) else ([], 0)
      else if |f.data| >= f.size then (f.data[..f.size], 1)
      else ([], 0)
  }

  /** A reply that is a segment: the three upper bits of its command are not set. */
  predicate IsReply(f: Frame) {
    f.command / 32 % 8 == 0 && f.length >= 3 && |f.data| >= f.length - 3
  }

  /** Reply `n` is the first one with bit 0 set in its command, and all up to it are segments. */
  ghost predicate EndsAt(fs: seq<Frame>, n: nat) {
    n < |fs| && forall j :: 0 <= j <= n ==> IsReply(fs[j]) && (fs[j].command % 2 == 1 <==> j == n)
  }

  /** The data of a segment; the last one of seven bytes says how many are not used. */
  function DataOf(f: Frame): (data: seq<byte>)
    requires IsReply(f)
  {
    f.data[..f.length - 3 - (if f.command % 2 == 1 && f.length == 10 then f.command / 2 % 8 else 0)]
  }

  /** The data of the first `n` segments. */
  function Joined(fs: seq<Frame>, n: nat): seq<byte>
    requires n <= |fs| && forall j :: 0 <= j < n ==> IsReply(fs[j])
  {
    if n == 0 then [] else Joined(fs, n - 1) + DataOf(fs[n - 1])
  }

  lemma {:induction false} JoinedFront(fs: seq<Frame>, n: nat)
    requires 0 < n <= |fs| && forall j :: 0 <= j < n ==> IsReply(fs[j])
    ensures forall j :: 0 <= j < n - 1 ==> IsReply(fs[1..][j])
    ensures Joined(fs, n) == DataOf(fs[0]) + Joined(fs[1..], n - 1)
  {
    hide IsReply;
    hide DataOf;
    if n > 1 {
      JoinedFront(fs, n - 1);
      assert fs[1..][n - 2] == fs[n - 1];
    }
  }

  /** The segments succeed if and only if one of them is the last one and none before it is anything
      else than a segment, and what they bring is the data of all of them in order. */
  lemma {:induction false} TakeSegmentsIs(fs: seq<Frame>, data: seq<byte>)
    ensures var (r, wkc) := TakeSegments(fs, data);
            && (wkc == 0 || wkc == 1) && (wkc == 1 <==> exists n: nat :: EndsAt(fs, n))
            && forall n: nat :: EndsAt(fs, n) ==> r == data + Joined(fs, n + 1)
    decreases |fs|
  {
    hide Joined;
    if fs != [] {
      var f := fs[0];
      if IsReply(f) {
        if f.command % 2 == 1 {
          assert EndsAt(fs, 0);
          LastIs(fs, data);
        } else {
          TakeSegmentsIs(fs[1..], data + f.data[..f.length - 3]);
          LaterIs(fs, data);
        }
      } else {
        assert forall n: nat :: !EndsAt(fs, n);
      }
    }
  }

  lemma {:induction false} LastIs(fs: seq<Frame>, data: seq<byte>)
    requires EndsAt(fs, 0)
    ensures fs != [] && TakeSegments(fs, data) == (data + Joined(fs, 1), 1)
    ensures forall n: nat :: EndsAt(fs, n) ==> n == 0
  {
    assert Joined(fs, 1) == DataOf(fs[0]);
  }

  lemma {:induction false} LaterIs(fs: seq<Frame>, data: seq<byte>)
    requires |fs| > 0 && IsReply(fs[0]) && fs[0].command % 2 == 0
    ensures forall n: nat :: EndsAt(fs, n) ==> n > 0 && EndsAt(fs[1..], n - 1)
    ensures forall n: nat :: EndsAt(fs[1..], n) ==> EndsAt(fs, n + 1)
    ensures forall n: nat :: EndsAt(fs, n) ==>
      data + Joined(fs, n + 1) == data + fs[0].data[..fs[0].length - 3] + Joined(fs[1..], n)
  {
    var first := fs[0].data[..fs[0].length - 3];
    assert DataOf(fs[0]) == first;
    hide Joined;
    hide IsReply;
    forall n: nat | EndsAt(fs, n)
      ensures n > 0 && EndsAt(fs[1..], n - 1)
      ensures data + Joined(fs, n + 1) == data + first + Joined(fs[1..], n)
    {
      JoinedFront(fs, n + 1);
    }
    forall n: nat | EndsAt(fs[1..], n) ensures EndsAt(fs, n + 1) {
      forall j | 0 <= j <= n + 1 ensures IsReply(fs[j]) && (fs[j].command % 2 == 1 <==> j == n + 1) {
        assert j > 0 ==> fs[j] == fs[1..][j - 1];
      }
    }
  }

  /** The first answer announces more than it brings, and the rest will follow in segments. */
  predicate InSegments(f: Frame, buffersize: nat) {
    f.command / 2 % 2 == 0 && f.size <= buffersize && 10 <= f.length < 10 + f.size
  }

  /** What a read yields. Nothing without an answer; from an expedited answer up to four bytes; from a longer
      one its bytes, if the buffer has room for the size that it announces; and if it brings fewer, the
      bytes of the segments behind it, if these end with a last one. */
  lemma {:induction false} UploadIs(fs: seq<Frame>, buffersize: nat)
    ensures var (r, wkc) := Upload(fs, buffersize);
            && (wkc == 0 || wkc == 1)
            && (fs == [] ==> wkc == 0)
            && (fs != [] ==>
                  var f := fs[0];
                  if f.command / 2 % 2 == 1 then
                    var n := 4 - f.command / 4 % 4;
                    && (wkc == 1 <==> n <= buffersize && n <= |f.data|)
                    && (wkc == 1 ==> r == f.data[..n])
                  else if InSegments(f, buffersize) then
                    && (wkc == 1 <==> f.length - 10 <= |f.data| && exists n: nat :: EndsAt(fs[1..], n))
                    && forall n: nat :: wkc == 1 && EndsAt(fs[1..], n) ==>
                         r == f.data[..f.length - 10] + Joined(fs[1..], n + 1)
                  else
                    && (wkc == 1 <==> f.length >= 10 && f.size <= buffersize && f.size <= |f.data|)
                    && (wkc == 1 ==> r == f.data[..f.size]))
  {
    hide EndsAt;
    hide Joined;
    hide TakeSegments;
    if |fs| > 0 && fs[0].length >= 10 && fs[0].length - 10 <= |fs[0].data| {
      TakeSegmentsIs(fs[1..], fs[0].data[..fs[0].length - 10]);
    }
  }

  /** Segments only ever add to the data. */
  lemma {:induction false} TakeSegmentsExtends(fs: seq<Frame>, data: seq<byte>)
    ensures data <= TakeSegments(fs, data).0
    decreases |fs|
  {
    if fs != [] {
      var f := fs[0];
      if f.command / 32 % 8 == 0 && f.length >= 3 && |f.data| >= f.length - 3 && !IsLast(f.command) {
        TakeSegmentsExtends(fs[1..], data + f.data[..f.length - 3]);
      }
    }
  }

  method CopyBytes(p: array<byte>, at: nat, bytes: seq<byte>)
    requires at + |bytes| <= p.Length
    modifies p
    ensures p[..at + |bytes|] == old(p[..at]) + bytes
  {
    forall i | 0 <= i < |bytes| {
      p[at + i] := bytes[i];
    }
  }

  /** Reads the segments into the buffer. The code relies on the slave that they do not exceed
      the size announced in the first frame. */
  method ReadSegments(fs: seq<Frame>, p: array<byte>, start: nat) returns (psize: nat, wkc: int)
    requires start <= p.Length && |TakeSegments(fs, p[..start]).0| <= p.Length
    modifies p
    ensures psize <= p.Length && (p[..psize], wkc) == TakeSegments(fs, old(p[..start]))
  {
    var i, hp := 0, start;
    var NotLast := true;
    psize, wkc := start, 1;
    ghost var whole := TakeSegments(fs, p[..start]);
    assert fs[0..] == fs;
    while NotLast
      invariant i <= |fs| && psize == hp <= p.Length
      invariant whole == if NotLast then TakeSegments(fs[i..], p[..hp]) else (p[..hp], wkc)
      decreases |fs| - i, NotLast
    {
      if i == |fs| {
        return psize, 0;
      }
      var f := fs[i];
      assert fs[i..][0] == f && fs[i..][1..] == fs[i + 1..];
      TakeSegmentsExtends(fs[i..], p[..hp]);
      i := i + 1;
      if f.command / 32 % 8 == 0 && f.length >= 3 && |f.data| >= f.length - 3 {
        var Framedatasize: nat := f.length - 3;
        if IsLast(f.command) {
          NotLast := false;
          if Framedatasize == 7 {
            // subtract unused bytes
            Framedatasize := Framedatasize - Unused(f.command);
          }
        } else {
          TakeSegmentsExtends(fs[i..], p[..hp] + f.data[..Framedatasize]);
        }
        hide TakeSegments;
        CopyBytes(p, hp, f.data[..Framedatasize]);
        hp := hp + Framedatasize;
        psize := psize + Framedatasize;
        wkc := 1;
      } else {
        NotLast := false;
        wkc := 0;
      }
    }
  }

  /** Reads a parameter; the size that is returned counts if the working counter is positive. */
  method SDOread(fs: seq<Frame>, p: array<byte>) returns (psize: nat, wkc: int)
    requires |Upload(fs, p.Length).0| <= p.Length
    modifies p
    ensures wkc == Upload(fs, p.Length).1
    ensures wkc > 0 ==> psize <= p.Length && p[..psize] == Upload(fs, p.Length).0
  {
    psize, wkc := p.Length, 0;
    if |fs| > 0 {
      var f := fs[0];
      if IsExpedited(f.command) {
        var bytesize := 4 - f.command / 4 % 4;
        if psize >= bytesize && |f.data| >= bytesize {
          CopyBytes(p, 0, f.data[..bytesize]);
          psize, wkc := bytesize, 1;
        }
      } else {
        var SDOlen := f.size;
        if SDOlen <= psize && f.length >= 10 {
          var Framedatasize: nat := f.length - 10;
          if Framedatasize < SDOlen {
            if |f.data| >= Framedatasize {
              CopyBytes(p, 0, f.data[..Framedatasize]);
              assert p[..Framedatasize] == f.data[..Framedatasize];
              psize, wkc := ReadSegments(fs[1..], p, Framedatasize);
            }
          } else if |f.data| >= SDOlen {
            CopyBytes(p, 0, f.data[..SDOlen]);
            psize, wkc := SDOlen, 1;
          }
        }
      }
    }
  }

  // Round trip

  lemma {:induction false} SegmentFields(data: seq<byte>, last: bool, toggle: nat)
    requires toggle <= 1
    ensures var f := Segment(data, last, toggle);
            && f.command / 32 % 8 == 0 && f.length == |f.data| + 3 && IsLast(f.command) == last
               && Toggle(f.command) == toggle
            && |f.data| >= |data| && f.data[..|data|] == data
            && (last ==> |data| == if f.length - 3 == 7 then 7 - Unused(f.command) else f.length - 3)
            && (!last ==> f.data == data)
  {
    if last && |data| < 7 {
      var k := 7 - |data|;
      assert (1 + 2 * k + 16 * toggle) / 2 == k + 8 * toggle;
      assert (k + 8 * toggle) % 8 == k % 8 == k;
    }
  }

  lemma {:induction false} SegmentsArrive(p: seq<byte>, maxdata: nat, toggle: nat, data: seq<byte>)
    requires maxdata >= 7 && toggle <= 1
    ensures TakeSegments(Segments(p, maxdata, toggle), data) == (data + p, 1)
    decreases |p|
  {
    hide Segment;
    hide IsLast;
    hide Unused;
    if |p| > maxdata {
      var f := Segment(p[..maxdata], false, toggle);
      SegmentFields(p[..maxdata], false, toggle);
      var rest := Segments(p[maxdata..], maxdata, 1 - toggle);
      var fs := Segments(p, maxdata, toggle);
      assert fs[0] == f && fs[1..] == rest;
      SegmentsArrive(p[maxdata..], maxdata, 1 - toggle, data + p[..maxdata]);
      assert data + p[..maxdata] + p[maxdata..] == data + p;
    } else {
      SegmentFields(p, true, toggle);
    }
  }

  lemma {:induction false} ExpeditedFields(p: seq<byte>)
    requires |p| <= 4
    ensures var c := Expedited(p).command;
            IsExpedited(c) && 4 - c / 4 % 4 == if |p| == 0 then 4 else |p|
  {
    var k := (4 - |p|) % 4;
    assert (ECT_SDO_DOWN_EXP + 4 * k) / 2 == 17 + 2 * k;
    assert (ECT_SDO_DOWN_EXP + 4 * k) / 4 == 8 + k;
  }

  /** A parameter that is downloaded and put together by the rules of the upload is the same, if
      and only if the buffer has room for it, and it is not an empty one that is sent expedited:
      the command of an expedited frame cannot say that no byte is used. */
  lemma {:induction false} ParameterArrives(p: seq<byte>, CA: bool, mbx_l: nat, buffersize: nat)
    requires mbx_l >= 16
    ensures Upload(Download(p, CA, mbx_l), buffersize) == (p, 1) <==> |p| <= buffersize && (CA || |p| > 0)
  {
    hide Upload;
    if |p| <= 4 && !CA {
      ExpeditedArrives(p, buffersize);
    } else {
      InitiatedArrives(p, CA, mbx_l, buffersize);
    }
  }

  lemma {:induction false} ExpeditedArrives(p: seq<byte>, buffersize: nat)
    requires |p| <= 4
    ensures Upload([Expedited(p)], buffersize) == (p, 1) <==> 0 < |p| <= buffersize
  {
    ExpeditedFields(p);
    var f := Expedited(p);
    assert f.data[..|p|] == p && |f.data| == 4;
    hide Expedited;
    hide TakeSegments;
  }

  lemma {:induction false} InitiatedArrives(p: seq<byte>, CA: bool, mbx_l: nat, buffersize: nat)
    requires mbx_l >= 16 && (CA || |p| > 4)
    ensures Upload(Download(p, CA, mbx_l), buffersize) == (p, 1) <==> |p| <= buffersize
  {
    hide Expedited;
    hide Segment;
    assert !IsExpedited(ECT_SDO_DOWN_INIT) && !IsExpedited(ECT_SDO_DOWN_INIT_CA);
    hide IsExpedited;
    var fs := Download(p, CA, mbx_l);
    var maxdata := mbx_l - 16;
    if |p| <= maxdata {
      assert p[..|p|] == p;
    } else {
      assert fs[1..] == Segments(p[maxdata..], maxdata + 7, 0);
      assert p[..maxdata] + p[maxdata..] == p && p[..maxdata][..maxdata] == p[..maxdata];
      SegmentsArrive(p[maxdata..], maxdata + 7, 0, p[..maxdata]);
    }
    hide Segments;
    hide TakeSegments;
  }

  /** An empty parameter that is sent expedited arrives as four zeros. */
  lemma {:induction false} EmptyParameterGrows(mbx_l: nat, buffersize: nat)
    requires mbx_l >= 16 && buffersize >= 4
    ensures Upload(Download([], false, mbx_l), buffersize) == (Zeros(4), 1)
  {
    ExpeditedFields([]);
    assert Expedited([]).data[..4] == Zeros(4);
  }

  // The shape of the frames

  /** Segment `i` has the toggle bit of its position, and only the last one is marked as such. */
  lemma {:induction false} SegmentsAlternate(p: seq<byte>, maxdata: nat, toggle: nat, i: nat)
    requires maxdata >= 7 && toggle <= 1 && i < |Segments(p, maxdata, toggle)|
    ensures var fs := Segments(p, maxdata, toggle);
            Toggle(fs[i].command) == (toggle + i) % 2 && (IsLast(fs[i].command) <==> i == |fs| - 1)
    decreases |p|
  {
    hide Segment;
    hide Toggle;
    hide IsLast;
    SegmentFields(if |p| > maxdata then p[..maxdata] else p, |p| <= maxdata, toggle);
    if |p| > maxdata && i > 0 {
      SegmentsAlternate(p[maxdata..], maxdata, 1 - toggle, i - 1);
    }
  }

  lemma {:induction false} SegmentsFit(p: seq<byte>, maxdata: nat, toggle: nat)
    requires maxdata >= 7
    ensures forall f :: f in Segments(p, maxdata, toggle) ==> f.length == |f.data| + 3 <= maxdata + 3
    decreases |p|
  {
    if |p| > maxdata {
      SegmentsFit(p[maxdata..], maxdata, 1 - toggle % 2);
    }
  }

  /** Every frame fits the mailbox, header included. */
  lemma {:induction false} FramesFitMailbox(p: seq<byte>, CA: bool, mbx_l: nat)
    requires mbx_l >= 16
    ensures forall f :: f in Download(p, CA, mbx_l) ==> 6 + f.length <= mbx_l
  {
    if !(|p| <= 4 && !CA) && |p| > mbx_l - 16 {
      SegmentsFit(p[mbx_l - 16..], mbx_l - 16 + 7, 0);
    }
  }
}
