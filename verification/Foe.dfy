/** File access over EtherCAT (ec_foe.c): writing a file to a slave that may ask for more time,
    and the rule by which the end of a file is found when reading. */
module Foe {
  import opened EcTypes

  const FILE_NOTFOUND: int := -10
  const FOE_ERROR: int := -5
  const PACKETNUMBER: int := -7
  const BUF2SMALL: int := -6
  const NOT_FOUND_CODE: nat := 0x8001

  /** What the master sends. */
  datatype Message = WriteRequest | Data(no: nat, bytes: seq<byte>)

  /** What the slave replies. */
  datatype Reply = Ack(no: nat) | Busy | Error(code: nat) | Unexpected

  /** The variables of the writer: bytes left, position in the file, number and size of the last
      packet, and whether an empty packet must still end the file. */
  datatype Writer = Writer(psize: nat, p: nat, sendpacket: nat, dofinalzero: bool, segmentdata: nat)

  datatype Next = Sends(w: Writer, msg: Message) | Stops(wkc: int)

  function Start(file: seq<byte>): Writer {
    Writer(|file|, 0, 0, true, 0)
  }

  // Writing

  /** Sends the next packet, or stops if the last one has been sent. */
  function NextPacket(w: Writer, file: seq<byte>, maxdata: nat): Next
    requires w.p + w.psize == |file|
  {
    var tsize := if w.psize > maxdata then maxdata else w.psize;
    if tsize > 0 || w.dofinalzero then
      var rest := w.psize - tsize;
      Sends(Writer(rest, w.p + tsize, w.sendpacket + 1, rest == 0 && tsize == maxdata, tsize),
            Data(w.sendpacket + 1, file[w.p..w.p + tsize]))
    else Stops(1)
  }

  /** Before the last packet was sent. */
  function RolledBack(w: Writer): Writer
    requires w.sendpacket > 0 && w.segmentdata <= w.p
  {
    w.(psize := w.psize + w.segmentdata, p := w.p - w.segmentdata, sendpacket := w.sendpacket - 1)
  }

  ghost predicate Sane(w: Writer, file: seq<byte>) {
    w.p + w.psize == |file| && w.segmentdata <= w.p
  }

  /** What the writer does with a reply. A slave that is busy gets the last packet again. */
  function OnReply(w: Writer, r: Reply, file: seq<byte>, maxdata: nat): Next
    requires Sane(w, file)
  {
    match r
    case Ack(no) => if no == w.sendpacket then NextPacket(w, file, maxdata) else Stops(PACKETNUMBER)
    case Busy => if w.sendpacket > 0 then NextPacket(RolledBack(w), file, maxdata) else Stops(1)
    case Error(code) => Stops(if code == NOT_FOUND_CODE then FILE_NOTFOUND else FOE_ERROR)
    case Unexpected => Stops(PACKET_ERROR)
  }

  /** The replies that end a transfer, and what is returned then: -10 if the slave says that there is no
      such file (code 0x8001), -5 for any other error of it, -7 for an acknowledgement with a number
      other than that of the last packet, and -3 for anything that is not expected. */
  lemma {:induction false} ReplyErrors(w: Writer, r: Reply, file: seq<byte>, maxdata: nat)
    requires Sane(w, file)
    ensures match r
            case Ack(no) => no != w.sendpacket ==> OnReply(w, r, file, maxdata) == Stops(-7)
            case Busy => w.sendpacket == 0 ==> OnReply(w, r, file, maxdata) == Stops(1)
            case Error(code) => OnReply(w, r, file, maxdata) == Stops(if code == 0x8001 then -10 else -5)
            case Unexpected => OnReply(w, r, file, maxdata) == Stops(-3)
  {
    hide NextPacket;
  }

  // A slave that writes the file

  datatype Decision = Accept | Refuse

  /** What the slave will decide about the messages to come, and what it has accepted so far. It
      stops answering when there are no more decisions. */
  datatype Slave = Slave(decisions: seq<Decision>, received: seq<byte>, packets: seq<Message>, complete: bool)

  /** The slave's reply; a packet of less than full size completes the file. */
  function Answer(s: Slave, msg: Message, maxdata: nat): (Slave, Option<Reply>) {
    if s.decisions == [] then (s, None)
    else
      var s1 := s.(decisions := s.decisions[1..]);
      if s.decisions[0].Refuse? then (s1, Some(Busy))
      else
        match msg
        case WriteRequest => (s1, Some(Ack(0)))
        case Data(no, bytes) =>
          if s.complete || no != |s.packets| + 1 then (s1, Some(Error(0)))
          else (s1.(received := s.received + bytes, packets := s.packets + [msg], complete := |bytes| < maxdata),
            Some(Ack(no)))
  }

  /** The exchange after `msg` was sent: what the slave has in the end, and what the master returns. */
  function Run(w: Writer, msg: Message, s: Slave, file: seq<byte>, maxdata: nat): (Slave, int)
    requires Sane(w, file)
    decreases |s.decisions|
  {
    var (s1, reply) := Answer(s, msg, maxdata);
    match reply
    case None => (s1, 0)
    case Some(r) =>
      match OnReply(w, r, file, maxdata)
      case Stops(wkc) => (s1, wkc)
      case Sends(w1, msg1) => Run(w1, msg1, s1, file, maxdata)
  }

  /** The packets of a file: full ones, then one that is shorter, and may be empty. */
  function PacketsOf(file: seq<byte>, maxdata: nat, no: nat): (ps: seq<Message>)
    requires maxdata > 0
    ensures |ps| > 0
    decreases |file|
  {
    if |file| < maxdata then [Data(no, file)]
    else [Data(no, file[..maxdata])] + PacketsOf(file[maxdata..], maxdata, no + 1)
  }

  /** The writer has sent `msg`, which the slave has not accepted yet. */
  ghost predicate Sent(w: Writer, msg: Message, s: Slave, file: seq<byte>, maxdata: nat) {
    && Sane(w, file) && msg.Data? && !s.complete
    && msg.no == w.sendpacket == |s.packets| + 1
    && |msg.bytes| == w.segmentdata <= maxdata && msg.bytes == file[w.p - w.segmentdata..w.p]
    && (w.segmentdata < maxdata ==> w.psize == 0)
    && w.dofinalzero == (w.psize == 0 && w.segmentdata == maxdata)
    && s.received == file[..w.p - w.segmentdata]
  }

  /** A slave that is busy gets the same packet again, unless it is empty: then the writer stops,
      and reports success. */
  lemma {:induction false} BusyRepeats(w: Writer, msg: Message, s: Slave, file: seq<byte>, maxdata: nat)
    requires maxdata > 0 && Sent(w, msg, s, file, maxdata)
    ensures OnReply(w, Busy, file, maxdata) == if msg.bytes == [] then Stops(1) else Sends(w, msg)
  {
    var q := RolledBack(w);
    assert w.segmentdata > 0 ==> (if q.psize > maxdata then maxdata else q.psize) == w.segmentdata;
  }

  /** An accepted packet is followed by the next one, or is the last one and shorter than full size. */
  lemma {:induction false} AckGoesOn(w: Writer, msg: Message, s: Slave, file: seq<byte>, maxdata: nat)
    requires maxdata > 0 && Sent(w, msg, s, file, maxdata)
    requires s.decisions != [] && s.decisions[0].Accept?
    ensures var (s1, reply) := Answer(s, msg, maxdata);
            && reply == Some(Ack(w.sendpacket)) && s1.decisions == s.decisions[1..] && s1.packets == s.packets + [msg]
            && var next := OnReply(w, Ack(w.sendpacket), file, maxdata);
               if |msg.bytes| < maxdata then next == Stops(1) && s1.complete && s1.received == file
               else next.Sends? && Sent(next.w, next.msg, s1, file, maxdata) && next.w.p - next.w.segmentdata == w.p
  {
    var k := w.p - w.segmentdata;
    assert file[..k] + file[k..w.p] == file[..w.p];
    if w.p == |file| {
      assert file[..w.p] == file;
    }
  }

  // Whole transfers

  function Refusals(n: nat): (ds: seq<Decision>)
    ensures |ds| == n
  {
    if n == 0 then [] else [Refuse] + Refusals(n - 1)
  }

  /** A slave that accepts every message, after it was busy as often as `busy` says for each. */
  function Pattern(busy: seq<nat>): seq<Decision> {
    if busy == [] then [] else Refusals(busy[0]) + [Accept] + Pattern(busy[1..])
  }

  lemma {:induction false} PatternStep(busy: seq<nat>)
    requires |busy| > 0
    ensures Pattern(busy) != []
    ensures if busy[0] == 0 then Pattern(busy)[0] == Accept && Pattern(busy)[1..] == Pattern(busy[1..])
            else Pattern(busy)[0] == Refuse && Pattern(busy)[1..] == Pattern(busy[0 := busy[0] - 1])
  {
    if busy[0] > 0 {
      var less := busy[0 := busy[0] - 1];
      assert less[1..] == busy[1..];
      assert Pattern(busy) == [Refuse] + (Refusals(busy[0] - 1) + [Accept] + Pattern(busy[1..]));
    } else {
      assert Pattern(busy) == [Accept] + Pattern(busy[1..]);
    }
  }

  /** The slave has the whole file, in packets as they should be. */
  ghost predicate Complete(s: Slave, file: seq<byte>, maxdata: nat)
    requires maxdata > 0
  {
    s.complete && s.received == file && s.packets == PacketsOf(file, maxdata, 1)
  }

  lemma {:induction false} PacketsStep(rest: seq<byte>, maxdata: nat, no: nat)
    requires maxdata > 0 && |rest| >= maxdata
    ensures PacketsOf(rest, maxdata, no) == [Data(no, rest[..maxdata])] + PacketsOf(rest[maxdata..], maxdata, no + 1)
    ensures |rest| % maxdata == |rest[maxdata..]| % maxdata
  {
    ModStep(|rest|, maxdata);
  }

  lemma {:induction false} ModStep(n: nat, m: nat)
    requires n >= m > 0
    ensures n % m == (n - m) % m
  {
    var q, r := (n - m) / m, (n - m) % m;
    assert n - m == m * q + r;
    assert m * (q + 1) == m * q + m;
    ModIs(n, m, q + 1, r);
  }

  /** How the transfer of the rest of a file ends. */
  ghost predicate Ends(
    r: (Slave, int), s: Slave, rest: seq<byte>, file: seq<byte>, maxdata: nat, no: nat, busy: seq<nat>)
    requires maxdata > 0 && |busy| > 0
  {
    && r.1 == 1
    && (r.0.complete <==> (|rest| % maxdata == 0 ==> busy[|busy| - 1] == 0))
    && (r.0.complete ==> r.0.received == file && r.0.packets == s.packets + PacketsOf(rest, maxdata, no))
  }

  /** From packet `msg` on. The rest of the file begins with this packet; `busy` belongs to it and
      those behind it. */
  lemma {:induction false} RestIsWritten(
    w: Writer, msg: Message, s: Slave, file: seq<byte>, maxdata: nat, busy: seq<nat>)
    requires maxdata > 0 && Sent(w, msg, s, file, maxdata) && |busy| > 0 && s.decisions == Pattern(busy)
    requires |busy| == |PacketsOf(file[w.p - w.segmentdata..], maxdata, msg.no)|
    ensures Ends(Run(w, msg, s, file, maxdata), s, file[w.p - w.segmentdata..], file, maxdata, msg.no, busy)
    decreases |s.decisions|
  {
    var rest := file[w.p - w.segmentdata..];
    var r := Run(w, msg, s, file, maxdata);
    PatternStep(busy);
    SentHeads(w, msg, s, file, maxdata);
    hide Pattern;
    RunStep(w, msg, s, file, maxdata);
    hide Run;
    hide PacketsOf;
    if busy[0] > 0 {
      BusyRepeats(w, msg, s, file, maxdata);
      hide OnReply;
      if msg.bytes != [] {
        hide Sent;
        hide Ends;
        var s1, less := s.(decisions := s.decisions[1..]), busy[0 := busy[0] - 1];
        RestIsWritten(w, msg, s1, file, maxdata, less);
        EndsAfterBusy(r, s, s1, rest, file, maxdata, msg.no, busy);
      }
    } else {
      AckGoesOn(w, msg, s, file, maxdata);
      hide Answer;
      hide OnReply;
      if |msg.bytes| == maxdata {
        var s1 := Answer(s, msg, maxdata).0;
        var next := OnReply(w, Ack(w.sendpacket), file, maxdata);
        assert next.msg.no == msg.no + 1;
        hide Sent;
        hide Ends;
        RestIsWritten(next.w, next.msg, s1, file, maxdata, busy[1..]);
        EndsAfterAck(r, s, s1, msg, rest, file[w.p..], file, maxdata, busy);
      }
    }
  }

  lemma {:induction false} EndsAfterBusy(
    r: (Slave, int), s: Slave, s1: Slave, rest: seq<byte>, file: seq<byte>, maxdata: nat, no: nat, busy: seq<nat>)
    requires maxdata > 0 && |busy| > 0 && busy[0] > 0 && s1.packets == s.packets
    requires |busy| == |PacketsOf(rest, maxdata, no)| && (|busy| == 1 ==> |rest| % maxdata != 0)
    requires Ends(r, s1, rest, file, maxdata, no, busy[0 := busy[0] - 1])
    ensures Ends(r, s, rest, file, maxdata, no, busy)
  {
    hide PacketsOf;
  }

  lemma {:induction false} EndsAfterAck(
    r: (Slave, int), s: Slave, s1: Slave, msg: Message, rest: seq<byte>, after: seq<byte>, file: seq<byte>,
      maxdata: nat, busy: seq<nat>)
    requires maxdata > 0 && |busy| > 1 && msg.Data? && s1.packets == s.packets + [msg]
    requires PacketsOf(rest, maxdata, msg.no) == [msg] + PacketsOf(after, maxdata, msg.no + 1)
    requires |rest| % maxdata == |after| % maxdata
    requires Ends(r, s1, after, file, maxdata, msg.no + 1, busy[1..])
    ensures Ends(r, s, rest, file, maxdata, msg.no, busy)
  {
    hide PacketsOf;
  }

  /** The packet that was sent is the first of the rest of the file. */
  lemma {:induction false} SentHeads(w: Writer, msg: Message, s: Slave, file: seq<byte>, maxdata: nat)
    requires maxdata > 0 && Sent(w, msg, s, file, maxdata)
    ensures var rest := file[w.p - w.segmentdata..];
            if |msg.bytes| < maxdata then rest == msg.bytes && PacketsOf(rest, maxdata, msg.no) == [msg]
              && |rest| % maxdata == |rest|
            else && PacketsOf(rest, maxdata, msg.no) == [msg] + PacketsOf(file[w.p..], maxdata, msg.no + 1)
                 && |rest| % maxdata == |file[w.p..]| % maxdata
  {
    var rest := file[w.p - w.segmentdata..];
    if |msg.bytes| < maxdata {
      SmallMod(|rest|, maxdata);
    } else {
      assert rest[..maxdata] == msg.bytes && rest[maxdata..] == file[w.p..];
      PacketsStep(rest, maxdata, msg.no);
    }
  }

  /** Writing a file, however often the slave is busy: the master always reports success, and the
      slave has the whole file if and only if it was never busy at the request, nor at the empty
      packet that ends a file of full packets. */
  lemma {:induction false} FileIsWritten(file: seq<byte>, maxdata: nat, busy: seq<nat>)
    requires maxdata > 0 && |busy| == 1 + |PacketsOf(file, maxdata, 1)|
    ensures Sane(Start(file), file)
    ensures var (s, wkc) := Run(Start(file), WriteRequest, Slave(Pattern(busy), [], [], false), file, maxdata);
            && wkc == 1
            && (s.complete <==> busy[0] == 0 && (|file| % maxdata == 0 ==> busy[|busy| - 1] == 0))
            && (s.complete ==> Complete(s, file, maxdata))
  {
    PatternStep(busy);
    if busy[0] == 0 {
      var s1 := Slave(Pattern(busy[1..]), [], [], false);
      var next := OnReply(Start(file), Ack(0), file, maxdata);
      assert file[0..] == file && file[..0] == [];
      assert Sent(next.w, next.msg, s1, file, maxdata);
      hide PacketsOf;
      hide Pattern;
      RestIsWritten(next.w, next.msg, s1, file, maxdata, busy[1..]);
      assert [] + PacketsOf(file, maxdata, 1) == PacketsOf(file, maxdata, 1);
    }
  }

  /** A slave that is busy once, at the request, gets nothing of the file; the master reports success. */
  lemma {:induction false} BusyAtRequest(file: seq<byte>, maxdata: nat)
    requires 0 < |file| < maxdata
    ensures Sane(Start(file), file) && |PacketsOf(file, maxdata, 1)| == 1
    ensures var (s, wkc) := Run(Start(file), WriteRequest, Slave(Pattern([1, 0]), [], [], false), file, maxdata);
            wkc == 1 && s.received == [] && !s.complete
  {
    PatternStep([1, 0]);
    RunStep(Start(file), WriteRequest, Slave(Pattern([1, 0]), [], [], false), file, maxdata);
  }

  /** A slave that is busy once, at the empty packet, never learns that the file has ended. */
  lemma {:induction false} BusyAtEnd(file: seq<byte>, maxdata: nat)
    requires 0 < |file| == maxdata
    ensures Sane(Start(file), file) && |PacketsOf(file, maxdata, 1)| == 2
    ensures var (s, wkc) := Run(Start(file), WriteRequest, Slave(Pattern([0, 0, 1]), [], [], false), file, maxdata);
            wkc == 1 && s.received == file && !s.complete
  {
    assert file[maxdata..] == [] && file[..maxdata] == file;
    PatternStep([0, 0, 1]);
    PatternStep([0, 1]);
    PatternStep([1]);
    assert [0, 0, 1][1..] == [0, 1] && [0, 1][1..] == [1];
    var s := Slave(Pattern([0, 0, 1]), [], [], false);
    RunStep(Start(file), WriteRequest, s, file, maxdata);
    var w1 := Writer(0, maxdata, 1, true, maxdata);
    var s1 := Slave(Pattern([0, 1]), [], [], false);
    assert OnReply(Start(file), Ack(0), file, maxdata) == Sends(w1, Data(1, file));
    RunStep(w1, Data(1, file), s1, file, maxdata);
    var w2, s2 := Writer(0, maxdata, 2, false, 0), Slave(Pattern([1]), file, [Data(1, file)], false);
    assert OnReply(w1, Ack(1), file, maxdata) == Sends(w2, Data(2, []));
    RunStep(w2, Data(2, []), s2, file, maxdata);
  }

  /** Whatever the slave decides, and whenever it stops answering: it never gets anything but the
      beginning of the file, and what it takes for the whole file is the whole file. */
  lemma {:induction false} OnlyTheFileIsWritten(w: Writer, msg: Message, s: Slave, file: seq<byte>, maxdata: nat)
    requires maxdata > 0 && Sent(w, msg, s, file, maxdata)
    ensures var (s', wkc) := Run(w, msg, s, file, maxdata);
            s'.received <= file && (s'.complete ==> s'.received == file && wkc == 1) && (wkc == 0 || wkc == 1)
    decreases |s.decisions|
  {
    if s.decisions != [] {
      if s.decisions[0].Refuse? {
        BusyRepeats(w, msg, s, file, maxdata);
        hide OnReply;
        if msg.bytes != [] {
          OnlyTheFileIsWritten(w, msg, s.(decisions := s.decisions[1..]), file, maxdata);
        }
      } else {
        AckGoesOn(w, msg, s, file, maxdata);
        hide Answer;
        hide OnReply;
        if |msg.bytes| == maxdata {
          var next := OnReply(w, Ack(w.sendpacket), file, maxdata);
          OnlyTheFileIsWritten(next.w, next.msg, Answer(s, msg, maxdata).0, file, maxdata);
        }
      }
    }
  }

  // Reading

  /** What the reader gets from a mailbox. */
  datatype Incoming = Packet(no: nat, bytes: seq<byte>) | ReadError | Stray

  /** Reads until a packet is shorter than full size: the data, and what the master returns. */
  function Read(ps: seq<Incoming>, maxdata: nat, buffersize: nat, prevpacket: nat, data: seq<byte>): (seq<byte>, int)
    decreases |ps|
  {
    if ps == [] then (data, 0)
    else
      match ps[0]
      case Packet(no, bytes) =>
        if no == prevpacket + 1 && |data| + |bytes| <= buffersize then
          if |bytes| == maxdata then Read(ps[1..], maxdata, buffersize, prevpacket + 1, data + bytes)
          else (data + bytes, 1)
        else (data, BUF2SMALL)
      case ReadError => (data, FOE_ERROR)
      case Stray => (data, PACKET_ERROR)
  }

  /** How many packets are taken: those that carry the next number and fit the buffer, up to the
      first that is shorter than full size. */
  function Taken(ps: seq<Incoming>, maxdata: nat, buffersize: nat, prevpacket: nat, size: nat): nat
    decreases |ps|
  {
    if ps == [] || !ps[0].Packet? || ps[0].no != prevpacket + 1 || size + |ps[0].bytes| > buffersize then 0
    else if |ps[0].bytes| != maxdata then 1
    else 1 + Taken(ps[1..], maxdata, buffersize, prevpacket + 1, size + maxdata)
  }

  function AsIncoming(ps: seq<Message>): (r: seq<Incoming>)
    ensures |r| == |ps|
  {
    seq(|ps|, i requires 0 <= i < |ps| => if ps[i].Data? then Packet(ps[i].no, ps[i].bytes) else Stray)
  }

  lemma {:induction false} IncomingConcat(p: Message, ps: seq<Message>)
    ensures AsIncoming([p] + ps) == AsIncoming([p]) + AsIncoming(ps)
  {
  }

  /** The rule for the end of a file recovers every file that was cut into packets, if and only if
      the buffer has room for it. */
  lemma {:induction false} ReadRecovers(rest: seq<byte>, maxdata: nat, buffersize: nat, no: nat, data: seq<byte>)
    requires maxdata > 0 && |data| <= buffersize
    ensures var r := Read(AsIncoming(PacketsOf(rest, maxdata, no + 1)), maxdata, buffersize, no, data);
            if |data| + |rest| <= buffersize then r == (data + rest, 1) else r.1 == BUF2SMALL
    decreases |rest|
  {
    if |rest| >= maxdata {
      var first := Data(no + 1, rest[..maxdata]);
      IncomingConcat(first, PacketsOf(rest[maxdata..], maxdata, no + 2));
      var ps := AsIncoming(PacketsOf(rest, maxdata, no + 1));
      assert ps[0] == Packet(no + 1, rest[..maxdata]);
      assert ps[1..] == AsIncoming(PacketsOf(rest[maxdata..], maxdata, no + 2));
      if |data| + maxdata <= buffersize {
        ReadRecovers(rest[maxdata..], maxdata, buffersize, no + 1, data + rest[..maxdata]);
        assert data + rest[..maxdata] + rest[maxdata..] == data + rest;
      }
    }
  }

  // The methods

  /** A slave at the other end of the mailbox; its replies come when the master asks for them. */
  class Peer {
    const maxdata: nat
    var slave: Slave
    var pending: Message

    constructor (maxdata: nat, slave: Slave)
      ensures this.maxdata == maxdata && this.slave == slave
    {
      this.maxdata, this.slave, pending := maxdata, slave, WriteRequest;
    }

    method MbxSend(msg: Message)
      modifies this`pending
      ensures pending == msg
    {
      pending := msg;
    }

    method MbxReceive() returns (reply: Option<Reply>)
      modifies this`slave
      ensures (slave, reply) == Answer(old(slave), pending, maxdata)
    {
      var s;
      s, reply := Answer(slave, pending, maxdata).0, Answer(slave, pending, maxdata).1;
      slave := s;
    }
  }

  /** Sends the next packet if there is one. */
  method SendPacket(peer: Peer, file: seq<byte>, maxdata: nat, w: Writer) returns (w': Writer, worktodo: bool)
    requires Sane(w, file)
    modifies peer`pending
    ensures worktodo == NextPacket(w, file, maxdata).Sends? && Sane(w', file)
    ensures NextPacket(w, file, maxdata) == if worktodo then Sends(w', peer.pending) else Stops(1)
  {
    w', worktodo := w, false;
    var tsize := w.psize;
    if tsize > maxdata {
      tsize := maxdata;
    }
    if tsize > 0 || w.dofinalzero {
      worktodo := true;
      var dofinalzero, segmentdata := false, tsize;
      var psize := w.psize - segmentdata;
      // the end of a file is a packet of less than full size
      if psize == 0 && segmentdata == maxdata {
        dofinalzero := true;
      }
      var sendpacket := w.sendpacket + 1;
      peer.MbxSend(Data(sendpacket, file[w.p..w.p + segmentdata]));
      w' := Writer(psize, w.p + segmentdata, sendpacket, dofinalzero, segmentdata);
    }
  }

  /** Writes a file to a slave. */
  method FOEwrite(peer: Peer, file: seq<byte>, mbx_l: nat) returns (wkc: int)
    requires mbx_l > 12 && peer.maxdata == mbx_l - 12
    modifies peer
    ensures Sane(Start(file), file)
    ensures (peer.slave, wkc) == Run(Start(file), WriteRequest, old(peer.slave), file, mbx_l - 12)
  {
    hide Answer;
    hide NextPacket;
    hide Run;
    var maxdata := mbx_l - 12;
    var w := Start(file);
    ghost var whole := Run(w, WriteRequest, peer.slave, file, maxdata);
    peer.MbxSend(WriteRequest);
    wkc := 0;
    var worktodo := true;
    while worktodo
      invariant Sane(w, file)
      invariant whole == if worktodo then Run(w, peer.pending, peer.slave, file, maxdata) else (peer.slave, wkc)
      decreases |peer.slave.decisions|, worktodo
    {
      AnswerShrinks(peer.slave, peer.pending, maxdata);
      RunStep(w, peer.pending, peer.slave, file, maxdata);
      worktodo := false;
      var reply := peer.MbxReceive();
      wkc := if reply.Some? then 1 else 0;
      if reply.Some? {
        match reply.value {
          case Ack(packetnumber) =>
            if packetnumber == w.sendpacket {
              w, worktodo := SendPacket(peer, file, maxdata, w);
            } else {
              wkc := PACKETNUMBER;
            }
          case Busy =>
            // send the data again if any have been sent
            if w.sendpacket > 0 {
              w := w.(psize := w.psize + w.segmentdata, p := w.p - w.segmentdata, sendpacket := w.sendpacket - 1);
              NextSane(w, file, maxdata);
              w, worktodo := SendPacket(peer, file, maxdata, w.(segmentdata := 0));
            }
          case Error(code) =>
            wkc := if code == NOT_FOUND_CODE then FILE_NOTFOUND else FOE_ERROR;
          case Unexpected =>
            wkc := PACKET_ERROR;
        }
      }
    }
  }

  lemma {:induction false} RunStep(w: Writer, msg: Message, s: Slave, file: seq<byte>, maxdata: nat)
    requires Sane(w, file)
    ensures var (s1, reply) := Answer(s, msg, maxdata);
            Run(w, msg, s, file, maxdata) ==
            if reply.None? then (s1, 0)
            else
              var next := OnReply(w, reply.value, file, maxdata);
              if next.Stops? then (s1, next.wkc) else Run(next.w, next.msg, s1, file, maxdata)
  {
    hide OnReply;
  }

  /** The next packet does not depend on the size of the last one. */
  lemma {:induction false} NextSane(w: Writer, file: seq<byte>, maxdata: nat)
    requires w.p + w.psize == |file|
    ensures NextPacket(w.(segmentdata := 0), file, maxdata) == NextPacket(w, file, maxdata)
  {
  }

  lemma {:induction false} AnswerShrinks(s: Slave, msg: Message, maxdata: nat)
    ensures var (s1, reply) := Answer(s, msg, maxdata);
            reply.Some? ==> |s1.decisions| < |s.decisions|
    ensures var (s1, reply) := Answer(s, msg, maxdata);
            |s1.decisions| <= |s.decisions|
  {
  }

  /** The data of packets, one behind the other. */
  function Joined(ps: seq<Incoming>): seq<byte> {
    if ps == [] then [] else (if ps[0].Packet? then ps[0].bytes else []) + Joined(ps[1..])
  }

  lemma {:induction false} TakenBound(ps: seq<Incoming>, maxdata: nat, buffersize: nat, prevpacket: nat, size: nat)
    ensures Taken(ps, maxdata, buffersize, prevpacket, size) <= |ps|
    decreases |ps|
  {
    if ps != [] {
      TakenBound(ps[1..], maxdata, buffersize, prevpacket + 1, size + maxdata);
    }
  }

  /** The mailboxes that are taken are packets with the next numbers, all of full size but for the last
      one, which ends the file if it is not; if none ends it, the mailbox behind them, if there is one,
      has another number or does not fit, or is no packet. */
  lemma {:induction false} ReadIsTaken(
    ps: seq<Incoming>, maxdata: nat, buffersize: nat, prevpacket: nat, data: seq<byte>)
    ensures var n, r := Taken(ps, maxdata, buffersize, prevpacket, |data|),
      Read(ps, maxdata, buffersize, prevpacket, data);
            && n <= |ps| && r.0 == data + Joined(ps[..n])
            && (forall i :: 0 <= i < n ==>
                  ps[i].Packet? && ps[i].no == prevpacket + i + 1 && (i < n - 1 ==> |ps[i].bytes| == maxdata))
            && if n > 0 && |ps[n - 1].bytes| != maxdata then r.1 == 1
               else if n == |ps| then r.1 == 0
               else
                 match ps[n]
                 case ReadError => r.1 == -5
                 case Stray => r.1 == -3
                 case Packet(no, bytes) => r.1 == -6 && (no != prevpacket + n + 1 || |r.0| + |bytes| > buffersize)
    decreases |ps|
  {
    var n := Taken(ps, maxdata, buffersize, prevpacket, |data|);
    TakenBound(ps, maxdata, buffersize, prevpacket, |data|);
    if n > 0 {
      var bytes := ps[0].bytes;
      assert ps[..n][0] == ps[0] && ps[..n][1..] == ps[1..][..n - 1];
      if |bytes| == maxdata {
        ReadIsTaken(ps[1..], maxdata, buffersize, prevpacket + 1, data + bytes);
        assert data + bytes + Joined(ps[1..][..n - 1]) == data + (bytes + Joined(ps[1..][..n - 1]));
      } else {
        assert ps[1..][..0] == [] && bytes + [] == bytes;
      }
    } else {
      assert ps[..0] == [] && data + [] == data;
    }
  }

  /** Reads a file into a buffer; every packet that is taken is acknowledged. */
  method FOEread(ps: seq<Incoming>, maxdata: nat, p: array<byte>) returns (dataread: nat, wkc: int, acks: seq<nat>)
    modifies p
    ensures dataread <= p.Length && (p[..dataread], wkc) == Read(ps, maxdata, p.Length, 0, [])
    ensures |acks| == Taken(ps, maxdata, p.Length, 0, 0) && forall i :: 0 <= i < |acks| ==> acks[i] == i + 1
  {
    var prevpacket, i := 0, 0;
    dataread, wkc, acks := 0, 0, [];
    var worktodo := true;
    ghost var taken := Taken(ps, maxdata, p.Length, 0, 0);
    assert ps[0..] == ps && p[..0] == [];
    while worktodo
      invariant i <= |ps| && dataread <= p.Length && |acks| == prevpacket
      invariant Read(ps, maxdata, p.Length, 0, [])
                == if worktodo then Read(ps[i..], maxdata, p.Length, prevpacket, p[..dataread])
                  else (p[..dataread], wkc)
      invariant taken == |acks| + if worktodo then Taken(ps[i..], maxdata, p.Length, prevpacket, dataread) else 0
      invariant forall i :: 0 <= i < |acks| ==> acks[i] == i + 1
      decreases |ps| - i, worktodo
    {
      worktodo := false;
      wkc := 0;
      if i < |ps| {
        var incoming := ps[i];
        assert ps[i..][0] == incoming && ps[i..][1..] == ps[i + 1..];
        i := i + 1;
        wkc := 1;
        match incoming {
          case Packet(packetnumber, bytes) =>
            if packetnumber == prevpacket + 1 && dataread + |bytes| <= p.Length {
              prevpacket := prevpacket + 1;
              dataread := TakeData(p, dataread, bytes);
              worktodo := |bytes| == maxdata;
              acks := acks + [packetnumber];
            } else {
              wkc := BUF2SMALL;
            }
          case ReadError =>
            wkc := FOE_ERROR;
          case Stray =>
            wkc := PACKET_ERROR;
        }
      }
    }
  }

  method TakeData(p: array<byte>, dataread: nat, bytes: seq<byte>) returns (n: nat)
    requires dataread + |bytes| <= p.Length
    modifies p
    ensures n == dataread + |bytes| && p[..n] == old(p[..dataread]) + bytes
  {
    forall k | 0 <= k < |bytes| {
      p[dataread + k] := bytes[k];
    }
    n := dataread + |bytes|;
  }
}
