/** Buffers of received frames and their indices (nicdrv.c). Sockets are sequences: what was
    handed to the socket, and what reading it will yield, one entry for each attempt. */
module Port {
  import opened EcTypes
  import opened Datagram

  const EC_MAXBUF: nat := 16
  const EC_NOFRAME: int := -1
  const EC_OTHERFRAME: int := -2

  const EC_BUF_EMPTY: nat := 0
  const EC_BUF_ALLOC: nat := 1
  const EC_BUF_TX: nat := 2
  const EC_BUF_RCVD: nat := 3
  const EC_BUF_COMPLETE: nat := 4

  /** A packet read from a socket, with its Ethernet header. */
  type Packet = seq<byte>

  predicate IsEtherCAT(p: Packet)
    requires |p| >= 18
  {
    p[12] == 0x88 && p[13] == 0xa4
  }

  function IndexOf(p: Packet): byte
    requires |p| >= 18
  {
    p[17]
  }

  /** The second word of the source address, which tells the two ports apart. */
  function SourceOf(p: Packet): nat
    requires |p| >= 18
  {
    p[8] as int * 0x100 + p[9] as int
  }

  /** Where a received frame has its last working counter. */
  function WkcPos(rx: seq<byte>): nat
    requires |rx| >= 2
  {
    Word(rx, 0) as int % 0x1000
  }

  function LastWkc(rx: seq<byte>): uint16
    requires |rx| >= 2 && WkcPos(rx) + 2 <= |rx|
  {
    Word(rx, WkcPos(rx))
  }

  /** A packet, as it is in the temporary buffer, that can be stored for the frame of its index. */
  predicate Sound(p: Packet, lens: seq<nat>) {
    && 18 <= |p| <= EC_BUFSIZE
    && (IsEtherCAT(p) && IndexOf(p) as int < |lens| ==>
          18 <= lens[IndexOf(p)] <= |p| && WkcPos(p[14..]) + 2 <= EC_BUFSIZE)
  }

  /** The receive buffers of one socket and what is still to come from it. */
  datatype StackState = StackState(
    rxbuf: seq<seq<byte>>, rxbufstat: seq<nat>, rxsa: seq<nat>, arrivals: seq<Option<Packet>>)

  ghost predicate Valid(s: StackState, lens: seq<nat>) {
    && |s.rxbuf| == |s.rxbufstat| == |s.rxsa| == |lens| == EC_MAXBUF
    && (forall i :: 0 <= i < EC_MAXBUF ==> |s.rxbuf[i]| == EC_BUFSIZE)
    && (forall i :: 0 <= i < EC_MAXBUF && s.rxbufstat[i] == EC_BUF_RCVD ==> WkcPos(s.rxbuf[i]) + 2 <= EC_BUFSIZE)
    && (forall e :: 0 <= e < |s.arrivals| && s.arrivals[e].Some? ==> Sound(s.arrivals[e].value, lens))
  }

  /** The buffer once the packet, without its Ethernet header, is copied into it. */
  function Stored(buf: seq<byte>, p: Packet, length: nat): (r: seq<byte>)
    requires |buf| == EC_BUFSIZE && length <= |p| <= EC_BUFSIZE
    ensures |r| == |buf|
  {
    if length <= ETH_HEADERSIZE then buf else p[ETH_HEADERSIZE..length] + buf[length - ETH_HEADERSIZE..]
  }

  function SetStat(s: StackState, idx: nat, stat: nat): StackState
    requires idx < |s.rxbufstat|
  {
    s.(rxbufstat := s.rxbufstat[idx := stat])
  }

  function Store(s: StackState, idx: nat, p: Packet, length: nat, stat: nat): StackState
    requires |s.rxbuf| == |s.rxbufstat| == |s.rxsa| == EC_MAXBUF && idx < EC_MAXBUF && |s.rxbuf[idx]| == EC_BUFSIZE
    requires 18 <= |p| <= EC_BUFSIZE && length <= |p|
  {
    s.(rxbuf := s.rxbuf[idx := Stored(s.rxbuf[idx], p, length)],
       rxbufstat := s.rxbufstat[idx := stat],
       rxsa := s.rxsa[idx := SourceOf(p)])
  }

  /** One attempt to get frame `idx`: from its buffer, or else from the socket. A packet with
      another index goes to its own buffer if that is waiting for it. */
  function Fetch(s: StackState, lens: seq<nat>, idx: nat): (r: (StackState, int))
    requires Valid(s, lens) && idx < EC_MAXBUF
    ensures Valid(r.0, lens)
    ensures r.0.arrivals
            == if s.rxbufstat[idx] == EC_BUF_RCVD || s.arrivals == [] then s.arrivals else s.arrivals[1..]
  {
    if s.rxbufstat[idx] == EC_BUF_RCVD then (SetStat(s, idx, EC_BUF_COMPLETE), LastWkc(s.rxbuf[idx]) as int)
    else if s.arrivals == [] then (s, EC_NOFRAME)
    else
      var s1 := s.(arrivals := s.arrivals[1..]);
      match s.arrivals[0]
      case None => (s1, EC_NOFRAME)
      case Some(p) =>
        if !IsEtherCAT(p) then (s1, EC_OTHERFRAME)
        else
          var idxf := IndexOf(p) as int;
          if idxf == idx then
            var s2 := Store(s1, idx, p, lens[idx], EC_BUF_COMPLETE);
            (s2, Word(s2.rxbuf[idx], WkcPos(p[14..])) as int)
          else if idxf < EC_MAXBUF && s.rxbufstat[idxf] == EC_BUF_TX then
            (Store(s1, idxf, p, lens[idxf], EC_BUF_RCVD), EC_OTHERFRAME)
          else
            (s1, EC_OTHERFRAME)
  }

  /** Tries again until the frame is there or the time, counted in attempts, is over. */
  function Await(s: StackState, lens: seq<nat>, idx: nat, polls: nat): (r: (StackState, int))
    requires Valid(s, lens) && idx < EC_MAXBUF
    ensures Valid(r.0, lens)
    decreases polls
  {
    var (s1, wkc) := Fetch(s, lens, idx);
    if wkc > EC_NOFRAME || polls == 0 then (s1, wkc) else Await(s1, lens, idx, polls - 1)
  }

  // What becomes of an answer

  /** Buffer `idx` holds the answer `p`, or waits for it. */
  ghost predicate Pending(s: StackState, lens: seq<nat>, idx: nat, p: Packet)
    requires Valid(s, lens) && idx < EC_MAXBUF && 18 <= lens[idx] <= |p| <= EC_BUFSIZE
  {
    if s.rxbufstat[idx] == EC_BUF_RCVD then
      s.rxbuf[idx][..lens[idx] - ETH_HEADERSIZE] == p[ETH_HEADERSIZE..lens[idx]] && s.rxsa[idx] == SourceOf(p)
    else
      s.rxbufstat[idx] == EC_BUF_TX
  }

  predicate HasIndex(p: Packet, idx: nat) {
    |p| >= 18 && IsEtherCAT(p) && IndexOf(p) as int == idx
  }

  /** Every packet with index `idx` that is still to come is `p`. */
  ghost predicate OnlyAnswer(arrivals: seq<Option<Packet>>, idx: nat, p: Packet) {
    forall e :: 0 <= e < |arrivals| && arrivals[e].Some? && HasIndex(arrivals[e].value, idx) ==> arrivals[e].value == p
  }

  /** The answer to frame `idx` has arrived or will. */
  ghost predicate Coming(s: StackState, idx: nat, p: Packet)
    requires idx < |s.rxbufstat|
  {
    s.rxbufstat[idx] == EC_BUF_RCVD || Some(p) in s.arrivals
  }

  /** `p` has the index of frame `idx`. */
  ghost predicate Answer(p: Packet, lens: seq<nat>, idx: nat) {
    idx < |lens| == EC_MAXBUF && Sound(p, lens) && IsEtherCAT(p) && IndexOf(p) as int == idx
  }

  /** The working counter at the end of `p`, if the frame is long enough to hold it. */
  ghost predicate HasWkc(p: Packet, lens: seq<nat>, idx: nat, wkc: int)
    requires Answer(p, lens, idx)
  {
    WkcPos(p[14..]) + 16 <= lens[idx] ==> wkc == LastWkc(p[14..]) as int
  }

  /** The buffer holds the answer `p`, without its Ethernet header. */
  ghost predicate Filled(s: StackState, lens: seq<nat>, idx: nat, p: Packet)
    requires Answer(p, lens, idx) && idx < |s.rxbuf| && idx < |s.rxsa|
  {
    && |s.rxbuf[idx]| >= lens[idx] - ETH_HEADERSIZE
    && s.rxbuf[idx][..lens[idx] - ETH_HEADERSIZE] == p[ETH_HEADERSIZE..lens[idx]] && s.rxsa[idx] == SourceOf(p)
  }

  lemma {:induction false} StoredHolds(buf: seq<byte>, p: Packet, length: nat)
    requires |buf| == EC_BUFSIZE && 18 <= length <= |p| <= EC_BUFSIZE
    ensures Stored(buf, p, length)[..length - ETH_HEADERSIZE] == p[ETH_HEADERSIZE..length]
  {
  }

  lemma {:induction false} SameWkc(rx: seq<byte>, p: Packet, n: nat)
    requires 18 <= n <= |p| && n <= |rx| + 14 && rx[..n - ETH_HEADERSIZE] == p[ETH_HEADERSIZE..n]
    requires WkcPos(p[14..]) + 16 <= n
    ensures WkcPos(rx) == WkcPos(p[14..]) && WkcPos(rx) + 2 <= |rx| && LastWkc(rx) == LastWkc(p[14..])
  {
    var q := p[14..n];
    assert rx[0] == rx[..|q|][0] == q[0];
    assert rx[1] == rx[..|q|][1] == q[1];
    var l := WkcPos(q);
    assert rx[l] == rx[..|q|][l] == q[l];
    assert rx[l + 1] == rx[..|q|][l + 1] == q[l + 1];
  }

  /** While frame `idx` is fetched, the answer to another frame `j` is not lost. */
  lemma {:induction false} StepKeepsOther(s: StackState, lens: seq<nat>, idx: nat, j: nat, p: Packet)
    requires Valid(s, lens) && idx < EC_MAXBUF && j != idx && Answer(p, lens, j)
    requires Pending(s, lens, j, p) && OnlyAnswer(s.arrivals, j, p)
    ensures var s' := Fetch(s, lens, idx).0;
            Pending(s', lens, j, p) && OnlyAnswer(s'.arrivals, j, p) && (Coming(s', j, p) <==> Coming(s, j, p))
  {
    if s.rxbufstat[idx] != EC_BUF_RCVD && s.arrivals != [] {
      assert s.arrivals == [s.arrivals[0]] + s.arrivals[1..];
      StoredHolds(s.rxbuf[j], p, lens[j]);
    }
  }

  /** What an attempt to get frame `idx` yields. */
  lemma {:induction false} StepTakes(s: StackState, lens: seq<nat>, idx: nat, p: Packet)
    requires Valid(s, lens) && Answer(p, lens, idx)
    requires Pending(s, lens, idx, p) && OnlyAnswer(s.arrivals, idx, p)
    ensures var (s', wkc) := Fetch(s, lens, idx);
            if wkc > EC_NOFRAME then
              && Coming(s, idx, p) && HasWkc(p, lens, idx, wkc) && Filled(s', lens, idx, p)
              && s'.rxbufstat[idx] == EC_BUF_COMPLETE
            else
              && wkc == (if s.arrivals == [] || s.arrivals[0].None? then -1 else -2)
              && Pending(s', lens, idx, p) && OnlyAnswer(s'.arrivals, idx, p)
              && (Coming(s', idx, p) <==> Coming(s, idx, p))
              && (|s'.arrivals| < |s.arrivals| || !Coming(s, idx, p))
  {
    if s.rxbufstat[idx] == EC_BUF_RCVD {
      if WkcPos(p[14..]) + 16 <= lens[idx] {
        SameWkc(s.rxbuf[idx], p, lens[idx]);
      }
    } else if s.arrivals != [] {
      assert s.arrivals == [s.arrivals[0]] + s.arrivals[1..];
      StoredHolds(s.rxbuf[idx], p, lens[idx]);
      if WkcPos(p[14..]) + 16 <= lens[idx] {
        SameWkc(Stored(s.rxbuf[idx], p, lens[idx]), p, lens[idx]);
      }
    }
  }

  /** Waiting for frame `idx` succeeds if its answer comes and time suffices, and then yields
      exactly that answer. */
  lemma {:induction false} WaitTakes(s: StackState, lens: seq<nat>, idx: nat, p: Packet, polls: nat)
    requires Valid(s, lens) && Answer(p, lens, idx)
    requires Pending(s, lens, idx, p) && OnlyAnswer(s.arrivals, idx, p)
    ensures var (s', wkc) := Await(s, lens, idx, polls);
            && (wkc > EC_NOFRAME ==>
                  Coming(s, idx, p) && HasWkc(p, lens, idx, wkc) && Filled(s', lens, idx, p))
            && (polls >= |s.arrivals| && Coming(s, idx, p) ==> wkc > EC_NOFRAME)
    decreases polls
  {
    hide Fetch;
    hide Pending;
    hide OnlyAnswer;
    hide Coming;
    hide Valid;
    hide Filled;
    hide HasWkc;
    StepTakes(s, lens, idx, p);
    var (s1, wkc) := Fetch(s, lens, idx);
    if wkc <= EC_NOFRAME && polls > 0 {
      WaitTakes(s1, lens, idx, p, polls - 1);
    }
  }

  lemma {:induction false} WaitKeepsOther(s: StackState, lens: seq<nat>, idx: nat, j: nat, p: Packet, polls: nat)
    requires Valid(s, lens) && idx < EC_MAXBUF && j != idx && Answer(p, lens, j)
    requires Pending(s, lens, j, p) && OnlyAnswer(s.arrivals, j, p)
    ensures var s' := Await(s, lens, idx, polls).0;
            && Pending(s', lens, j, p) && OnlyAnswer(s'.arrivals, j, p) && (Coming(s', j, p) <==> Coming(s, j, p))
            && |s'.arrivals| <= |s.arrivals|
    decreases polls
  {
    hide Fetch;
    hide Pending;
    hide OnlyAnswer;
    hide Coming;
    hide Answer;
    hide Valid;
    StepKeepsOther(s, lens, idx, j, p);
    var (s1, wkc) := Fetch(s, lens, idx);
    if wkc <= EC_NOFRAME && polls > 0 {
      WaitKeepsOther(s1, lens, idx, j, p, polls - 1);
    }
  }

  // The port

  /** One socket with its receive buffers (ec_type.h, `ec_stackT`). */
  class Stack {
    const rxbuf: array<seq<byte>>
    const rxbufstat: array<nat>
    const rxsa: array<nat>
    var arrivals: seq<Option<Packet>>
    var sent: seq<Packet>

    /** Every buffer is empty, and nothing was sent or received. */
    constructor ()
      ensures Apart() && fresh(rxbuf) && fresh(rxbufstat) && fresh(rxsa)
      ensures arrivals == [] && sent == []
      ensures forall i :: 0 <= i < EC_MAXBUF ==> rxbufstat[i] == EC_BUF_EMPTY && |rxbuf[i]| == EC_BUFSIZE
    {
      rxbuf := new seq<byte>[EC_MAXBUF](i => seq(EC_BUFSIZE, j => 0 as byte));
      rxbufstat := new nat[EC_MAXBUF](i => EC_BUF_EMPTY);
      rxsa := new nat[EC_MAXBUF](i => 0);
      arrivals, sent := [], [];
    }

    ghost predicate Apart() {
      rxbufstat != rxsa && rxbuf.Length == rxbufstat.Length == rxsa.Length == EC_MAXBUF
    }

    function View(): StackState
      reads this, rxbuf, rxbufstat, rxsa
    {
      StackState(rxbuf[..], rxbufstat[..], rxsa[..], arrivals)
    }

    method StoreFrame(idx: nat, p: Packet, length: nat, stat: nat)
      requires Apart() && idx < EC_MAXBUF && |rxbuf[idx]| == EC_BUFSIZE && 18 <= |p| <= EC_BUFSIZE && length <= |p|
      modifies rxbuf, rxbufstat, rxsa
      ensures View() == Store(old(View()), idx, p, length, stat)
    {
      rxbuf[idx] := Stored(rxbuf[idx], p, length);
      rxbufstat[idx] := stat;
      rxsa[idx] := SourceOf(p);
    }

    /** Non-blocking receive of frame `idx`: its working counter, or a negative code. */
    method InFrame(txbuflength: array<nat>, idx: nat) returns (rval: int)
      requires Apart() && txbuflength != rxbufstat && txbuflength != rxsa
      requires Valid(View(), txbuflength[..]) && idx < EC_MAXBUF
      modifies this`arrivals, rxbuf, rxbufstat, rxsa
      ensures (View(), rval) == Fetch(old(View()), txbuflength[..], idx)
    {
      ghost var s, lens := View(), txbuflength[..];
      rval := EC_NOFRAME;
      if rxbufstat[idx] == EC_BUF_RCVD {
        rval := LastWkc(rxbuf[idx]) as int;
        rxbufstat[idx] := EC_BUF_COMPLETE;
      } else if |arrivals| > 0 {
        var packet := arrivals[0];
        arrivals := arrivals[1..];
        if packet.Some? {
          var p := packet.value;
          rval := EC_OTHERFRAME;
          if IsEtherCAT(p) {
            var idxf := IndexOf(p) as int;
            if idxf == idx {
              StoreFrame(idx, p, txbuflength[idx], EC_BUF_COMPLETE);
              rval := Word(rxbuf[idx], WkcPos(p[14..])) as int;
            } else if idxf < EC_MAXBUF && rxbufstat[idxf] == EC_BUF_TX {
              StoreFrame(idxf, p, txbuflength[idxf], EC_BUF_RCVD);
            }
          }
        }
      }
    }

    /** Hands a frame to the socket. */
    method OutFrame(frame: Packet, idx: nat)
      requires idx < rxbufstat.Length
      modifies this`sent, rxbufstat
      ensures sent == old(sent) + [frame] && rxbufstat[..] == old(rxbufstat[..])[idx := EC_BUF_TX]
    {
      rxbufstat[idx] := EC_BUF_TX;
      sent := sent + [frame];
    }

    /** Blocking receive of frame `idx`; `polls` stands for the time until the timer expires. */
    method WaitInFrame(txbuflength: array<nat>, idx: nat, polls: nat) returns (wkc: int)
      requires Apart() && txbuflength != rxbufstat && txbuflength != rxsa
      requires Valid(View(), txbuflength[..]) && idx < EC_MAXBUF
      modifies this`arrivals, rxbuf, rxbufstat, rxsa
      ensures (View(), wkc) == Await(old(View()), txbuflength[..], idx, polls)
    {
      hide Fetch;
      hide Valid;
      ghost var start, lens := View(), txbuflength[..];
      var left := polls;
      wkc := InFrame(txbuflength, idx);
      while wkc <= EC_NOFRAME && left > 0
        invariant Valid(View(), lens) && txbuflength[..] == lens
        invariant Await(start, lens, idx, polls) ==
                  if wkc > EC_NOFRAME || left == 0 then (View(), wkc) else Await(View(), lens, idx, left - 1)
        decreases left
      {
        left := left - 1;
        wkc := InFrame(txbuflength, idx);
      }
    }
  }

  /** Distance in the ring of buffers. */
  function Around(idx: nat, d: nat): (r: nat)
    ensures r < EC_MAXBUF
  {
    (idx + d) % EC_MAXBUF
  }

  predicate IsFree(rxbufstat: seq<nat>, lastidx: nat, d: nat)
    requires |rxbufstat| == EC_MAXBUF
  {
    rxbufstat[Around(lastidx + 1, d)] == EC_BUF_EMPTY
  }

  /** Takes the first empty buffer behind the one that was taken last; if no buffer is empty,
      the search ends where it began. */
  method GetIndex(rxbufstat: array<nat>, lastidx: nat) returns (idx: nat, ghost d: nat)
    requires rxbufstat.Length == EC_MAXBUF && lastidx < EC_MAXBUF
    modifies rxbufstat
    ensures d <= EC_MAXBUF && idx == Around(lastidx + 1, d)
    ensures forall e :: 0 <= e < d ==> !IsFree(old(rxbufstat[..]), lastidx, e)
    ensures d < EC_MAXBUF ==> IsFree(old(rxbufstat[..]), lastidx, d)
    ensures rxbufstat[..] == old(rxbufstat[..])[idx := EC_BUF_ALLOC]
  {
    idx := lastidx + 1;
    if idx >= EC_MAXBUF {
      idx := 0;
    }
    var cnt: nat := 0;
    while rxbufstat[idx] != EC_BUF_EMPTY && cnt < EC_MAXBUF
      invariant cnt <= EC_MAXBUF && idx == Around(lastidx + 1, cnt)
      invariant forall e :: 0 <= e < cnt ==> !IsFree(rxbufstat[..], lastidx, e)
      decreases EC_MAXBUF - cnt
    {
      idx := idx + 1;
      cnt := cnt + 1;
      if idx >= EC_MAXBUF {
        idx := 0;
      }
    }
    d := cnt;
    rxbufstat[idx] := EC_BUF_ALLOC;
  }
}
