/** Reading the states of all slaves (ec_main.c): one broadcast if that is conclusive, or else one
    datagram for each slave, in frames of up to 64. */
module StateRead {
  import opened EcTypes
  import opened Datagram

  const MAX_FPRD_MULTI: nat := 64
  const ECT_REG_ALSTAT: uint16 := 0x0130
  const ALSTATUS_SIZE: nat := 6

  // One datagram for each slave

  /** The datagrams that read the status of the first `k` slaves of the list. */
  function StatusChain(configlst: seq<uint16>, idx: byte, k: nat): (ds: seq<Datagram>)
    requires k <= |configlst|
    ensures |ds| == k
  {
    if k == 0 then []
    else StatusChain(configlst, idx, k - 1) + [StatusRead(configlst[k - 1], idx)]
  }

  function StatusRead(configadr: uint16, idx: byte): Datagram {
    NewDatagram(EC_CMD_FPRD, idx, configadr, ECT_REG_ALSTAT, seq(ALSTATUS_SIZE, i => 0 as byte))
  }

  lemma {:induction false} ChainAt(configlst: seq<uint16>, idx: byte, k: nat, i: nat)
    requires i < k <= |configlst|
    ensures StatusChain(configlst, idx, k)[i] == StatusRead(configlst[i], idx)
  {
    if i < k - 1 {
      ChainAt(configlst, idx, k - 1, i);
    }
  }

  lemma {:induction false} ChainPos(configlst: seq<uint16>, idx: byte, k: nat, i: nat)
    requires i <= k <= |configlst|
    ensures Pos(StatusChain(configlst, idx, k), i) == 16 + 18 * i
  {
    if i > 0 {
      ChainPos(configlst, idx, k, i - 1);
      ChainAt(configlst, idx, k, i - 1);
    }
  }

  /** Builds the frame for 1 to 64 slaves; only the last datagram is not followed by another. */
  method BuildStatusFrame(frame: array<byte>, idx: byte, configlst: seq<uint16>)
      returns (txbuflength: nat, sldatapos: seq<nat>)
    requires frame.Length == EC_BUFSIZE && 1 <= |configlst| <= MAX_FPRD_MULTI
    modifies frame
    ensures FrameHolds(frame[..], txbuflength, StatusChain(configlst, idx, |configlst|), false)
    ensures |sldatapos| == |configlst|
    ensures forall i :: 0 <= i < |sldatapos| ==> sldatapos[i] == 12 + 18 * i
  {
    hide FrameHolds;
    hide OnWire;
    hide Pos;
    var n := |configlst|;
    var zeros: seq<byte> := seq(ALSTATUS_SIZE, i => 0 as byte);
    var slcnt := 0;
    txbuflength := SetupDatagram(frame, EC_CMD_FPRD, idx, configlst[0], ECT_REG_ALSTAT, zeros);
    sldatapos := [EC_HEADERSIZE];
    slcnt := slcnt + 1;
    assert StatusChain(configlst, idx, 1) == [StatusRead(configlst[0], idx)];
    var offset;
    while slcnt < n - 1
      invariant 1 <= slcnt <= n && (n > 1 ==> slcnt < n) && |sldatapos| == slcnt
      invariant txbuflength == 16 + 18 * slcnt
      invariant FrameHolds(frame[..], txbuflength, StatusChain(configlst, idx, slcnt), slcnt > 1)
      invariant forall i :: 0 <= i < slcnt ==> sldatapos[i] == 12 + 18 * i
    {
      ChainPos(configlst, idx, slcnt + 1, slcnt);
      txbuflength, offset :=
        AddDatagram(frame, txbuflength, EC_CMD_FPRD, idx, true, configlst[slcnt], ECT_REG_ALSTAT, zeros,
                    StatusChain(configlst, idx, slcnt), slcnt > 1);
      sldatapos := sldatapos + [offset];
      slcnt := slcnt + 1;
    }
    if slcnt < n {
      ChainPos(configlst, idx, slcnt + 1, slcnt);
      txbuflength, offset :=
        AddDatagram(frame, txbuflength, EC_CMD_FPRD, idx, false, configlst[slcnt], ECT_REG_ALSTAT, zeros,
                    StatusChain(configlst, idx, slcnt), slcnt > 1);
      sldatapos := sldatapos + [offset];
    }
  }

  /** What a slave has in its AL status register and in its AL status code register. */
  datatype AlStatus = AlStatus(alstatus: uint16, alstatuscode: uint16, unused0: byte, unused1: byte)

  /** The six bytes from register 0x0130 on: the status, two bytes that are not used, the code. */
  function Register(a: AlStatus): (r: seq<byte>)
    ensures |r| == 6
  {
    [a.alstatus % 0x100, a.alstatus / 0x100, a.unused0, a.unused1, a.alstatuscode % 0x100, a.alstatuscode / 0x100]
  }

  /** The slaves, by configured address. */
  datatype Registers = Registers(al: uint16 -> AlStatus)

  /** A network on which every slave that is addressed puts its status into its datagram. */
  datatype Network = Network(answer: seq<byte> -> seq<byte>)

  function Answered(ds: seq<Datagram>, regs: Registers): (es: seq<Datagram>)
    ensures |es| == |ds|
    ensures forall i :: 0 <= i < |ds| ==> es[i] == AnswerOne(ds[i], regs)
  {
    seq(|ds|, i requires 0 <= i < |ds| => AnswerOne(ds[i], regs))
  }

  /** A slave that is read at the address of its AL status puts it into the datagram. */
  function AnswerOne(d: Datagram, regs: Registers): (r: Datagram)
    ensures |r.data| == |d.data|
  {
    if d.command == 4 && d.ADO == 0x0130 && |d.data| == 6 then d.(data := Register(regs.al(d.ADP)), wkc := 1) else d
  }

  ghost predicate Answers(network: Network, regs: Registers) {
    forall f, length, configlst, idx ::
         0 < |configlst| && FrameHolds(f, length, StatusChain(configlst, idx, |configlst|), false) ==>
         FrameHolds(network.answer(f), length, Answered(StatusChain(configlst, idx, |configlst|), regs), false)
  }

  // Such a network exists

  /** The frame with the first `n` datagrams of the chain written over it. */
  function Overlay(f: seq<byte>, ds: seq<Datagram>, n: nat): (g: seq<byte>)
    requires n <= |ds| && Pos(ds, |ds|) <= |f|
    ensures |g| == |f|
  {
    if n == 0 then f
    else
      PosGrows(ds, n - 1, |ds|);
      Placed(Overlay(f, ds, n - 1), Pos(ds, n - 1), ds[n - 1], n - 1 < |ds| - 1)
  }

  lemma {:induction false} SitsBeforeEnd(f: seq<byte>, end: nat, p: nat, d: Datagram, follows: bool)
    requires end <= |f| && Sits(f[..end], p, d, follows)
    ensures Sits(f, p, d, follows)
  {
    assert f[..end][p..p + 8] == f[p..p + 8];
    assert f[..end][p + 10..p + 10 + |d.data|] == f[p + 10..p + 10 + |d.data|];
    assert f[..end][p + 10 + |d.data|..p + Bytes(d)] == f[p + 10 + |d.data|..p + Bytes(d)];
  }

  lemma {:induction false} OverlayHolds(f: seq<byte>, ds: seq<Datagram>, n: nat)
    requires n <= |ds| && Pos(ds, |ds|) <= |f| && forall i :: 0 <= i < |ds| ==> |ds[i].data| < 0x800
    ensures forall i :: 0 <= i < n ==> Sits(Overlay(f, ds, n), Pos(ds, i), ds[i], i < |ds| - 1)
    ensures Overlay(f, ds, n)[..16] == f[..16]
  {
    hide Sits;
    hide Placed;
    hide Pos;
    hide Bytes;
    if n > 0 {
      OverlayHolds(f, ds, n - 1);
      PosGrows(ds, n - 1, |ds|);
      var was, p, g := Overlay(f, ds, n - 1), Pos(ds, n - 1), Overlay(f, ds, n);
      SitsPlaced(was, p, ds[n - 1], n - 1 < |ds| - 1);
      assert g[..16] == g[..p][..16] == was[..p][..16] == was[..16];
      forall i | 0 <= i < n - 1 ensures Sits(g, Pos(ds, i), ds[i], i < |ds| - 1) {
        PosGrows(ds, i, n - 1);
        SitsInPrefix(was, p, Pos(ds, i), ds[i], i < |ds| - 1);
        SitsBeforeEnd(g, p, Pos(ds, i), ds[i], i < |ds| - 1);
      }
    }
  }

  /** Slaves that answer every datagram of a frame. */
  function AnswerFrame(f: seq<byte>, regs: Registers): seq<byte> {
    match ParseFrame(f)
    case None => f
    case Some(ds) =>
      var es := Answered(ds, regs);
      if Pos(es, |es|) <= |f| then Overlay(f, es, |es|) else f
  }

  /** What `Answers` asks of a network can be met, whatever is in the status registers. */
  lemma {:induction false} NetworkExists(regs: Registers) returns (network: Network)
    ensures Answers(network, regs)
  {
    network := Network(f => AnswerFrame(f, regs));
    forall f, length, configlst: seq<uint16>, idx |
      0 < |configlst| && FrameHolds(f, length, StatusChain(configlst, idx, |configlst|), false)
      ensures FrameHolds(network.answer(f), length, Answered(StatusChain(configlst, idx, |configlst|), regs), false)
    {
      AnswerFrameHolds(f, length, configlst, idx, regs);
    }
  }

  lemma {:induction false} AnswerFrameHolds(
    f: seq<byte>, length: nat, configlst: seq<uint16>, idx: byte, regs: Registers)
    requires 0 < |configlst| && FrameHolds(f, length, StatusChain(configlst, idx, |configlst|), false)
    ensures FrameHolds(AnswerFrame(f, regs), length, Answered(StatusChain(configlst, idx, |configlst|), regs), false)
  {
    hide Sits;
    hide Pos;
    hide StatusChain;
    var n := |configlst|;
    var ds := StatusChain(configlst, idx, n);
    var es := Answered(ds, regs);
    ParseReadsChain(f, length, ds);
    ChainPos(configlst, idx, n, n);
    AnswerPos(configlst, idx, regs, n);
    AnswerSizes(configlst, idx, regs);
    OverlayHolds(f, es, n);
    hide ParseFrame;
    var g := AnswerFrame(f, regs);
    assert g[14] == g[..16][14] == f[..16][14] && g[15] == g[..16][15] == f[..16][15];
  }

  /** In the answer, the status of slave `i` lies where that of the frame's datagram was. */
  lemma {:induction false} StatusIsThere(
    b: seq<byte>, length: nat, configlst: seq<uint16>, idx: byte, regs: Registers, i: nat)
    requires i < |configlst|
    requires FrameHolds(b, length, Answered(StatusChain(configlst, idx, |configlst|), regs), false)
    ensures 26 + 18 * i + ALSTATUS_SIZE <= |b|
      && b[26 + 18 * i..26 + 18 * i + ALSTATUS_SIZE] == Register(regs.al(configlst[i]))
  {
    var n := |configlst|;
    var es := Answered(StatusChain(configlst, idx, n), regs);
    AnswerPos(configlst, idx, regs, i);
    ChainAt(configlst, idx, n, i);
    assert es[i].data == Register(regs.al(configlst[i]));
    assert Sits(b, Pos(es, i), es[i], i < |es| - 1 || false);
    hide Pos;
  }

  lemma {:induction false} AnswerSizes(configlst: seq<uint16>, idx: byte, regs: Registers)
    ensures var es := Answered(StatusChain(configlst, idx, |configlst|), regs);
            forall i :: 0 <= i < |es| ==> |es[i].data| == 6
  {
    var n := |configlst|;
    forall i | 0 <= i < n ensures |Answered(StatusChain(configlst, idx, n), regs)[i].data| == 6 {
      ChainAt(configlst, idx, n, i);
    }
  }

  lemma {:induction false} AnswerPos(configlst: seq<uint16>, idx: byte, regs: Registers, i: nat)
    requires i <= |configlst|
    ensures Pos(Answered(StatusChain(configlst, idx, |configlst|), regs), i) == 16 + 18 * i
  {
    if i > 0 {
      AnswerPos(configlst, idx, regs, i - 1);
      ChainAt(configlst, idx, |configlst|, i - 1);
    }
  }

  /** The statuses of all slaves of the list, in its order. */
  function StatusList(configlst: seq<uint16>, regs: Registers): (l: seq<seq<byte>>)
    ensures |l| == |configlst| && forall i :: 0 <= i < |l| ==> l[i] == Register(regs.al(configlst[i]))
  {
    seq(|configlst|, i requires 0 <= i < |configlst| => Register(regs.al(configlst[i])))
  }

  /** The received frame holds status `i` at its place. */
  ghost predicate StatusAt(b: seq<byte>, i: nat, status: seq<byte>) {
    |b| == EC_BUFSIZE && 26 + 18 * i + ALSTATUS_SIZE <= |b| && b[26 + 18 * i..26 + 18 * i + ALSTATUS_SIZE] == status
  }

  lemma {:induction false} AllStatusThere(
    frame: seq<byte>, length: nat, configlst: seq<uint16>, idx: byte, network: Network, regs: Registers)
    requires 0 < |configlst| && Answers(network, regs)
    requires FrameHolds(frame, length, StatusChain(configlst, idx, |configlst|), false)
    ensures |network.answer(frame)| == EC_BUFSIZE
    ensures forall i :: 0 <= i < |configlst| ==> StatusAt(network.answer(frame), i, StatusList(configlst, regs)[i])
  {
    var b := network.answer(frame);
    var es := Answered(StatusChain(configlst, idx, |configlst|), regs);
    assert FrameHolds(b, length, es, false);
    assert |b| == EC_BUFSIZE;
    var l := StatusList(configlst, regs);
    hide FrameHolds;
    hide StatusChain;
    forall i | 0 <= i < |configlst| ensures StatusAt(b, i, l[i]) {
      StatusIsThere(b, length, configlst, idx, regs, i);
    }
  }

  /** Copies the statuses out of the received frame, which lacks the Ethernet header. */
  method CopyStatus(
    packet: seq<byte>, sldatapos: seq<nat>, ghost statuses: seq<seq<byte>>) returns (slstatlst: seq<seq<byte>>)
    requires |packet| == EC_BUFSIZE && |statuses| == |sldatapos|
    requires forall i :: 0 <= i < |sldatapos| ==> sldatapos[i] == 12 + 18 * i && StatusAt(packet, i, statuses[i])
    ensures slstatlst == statuses
  {
    var rxbuf := packet[ETH_HEADERSIZE..];
    slstatlst := [];
    for slcnt := 0 to |sldatapos|
      invariant |slstatlst| == slcnt && slstatlst == statuses[..slcnt]
    {
      var pos := sldatapos[slcnt];
      assert StatusAt(packet, slcnt, statuses[slcnt]);
      assert rxbuf[pos..pos + ALSTATUS_SIZE] == packet[14 + pos..14 + pos + ALSTATUS_SIZE];
      slstatlst := slstatlst + [rxbuf[pos..pos + ALSTATUS_SIZE]];
    }
  }

  /** Reads the status of 1 to 64 slaves with one frame: each gets its own. */
  method FPRDMulti(frame: array<byte>, idx: byte, configlst: seq<uint16>, network: Network, ghost regs: Registers)
      returns (slstatlst: seq<seq<byte>>)
    requires frame.Length == EC_BUFSIZE && 1 <= |configlst| <= MAX_FPRD_MULTI && Answers(network, regs)
    modifies frame
    ensures slstatlst == StatusList(configlst, regs)
  {
    hide FrameHolds;
    hide Answers;
    hide StatusAt;
    hide StatusChain;
    var txbuflength, sldatapos := BuildStatusFrame(frame, idx, configlst);
    AllStatusThere(frame[..], txbuflength, configlst, idx, network, regs);
    slstatlst := CopyStatus(network.answer(frame[..]), sldatapos, StatusList(configlst, regs));
  }

  // The state of all slaves

  function Or(x: bv16, y: bv16): bv16 { x | y }

  /** The broadcast answer: the network combines the registers of all slaves. */
  function OrAll(states: seq<bv16>): bv16 {
    if states == [] then 0 else Or(OrAll(states[..|states| - 1]), states[|states| - 1])
  }

  /** Every bit of `x` is set in `or`. */
  predicate Contains(or: bv16, x: bv16) { x | or == or }

  predicate Conclusive(or: bv16) {
    or & 0x10 == 0 && (or & 0xf == 1 || or & 0xf == 2 || or & 0xf == 4 || or & 0xf == 8)
  }

  /** The lower one of what was found so far and the state of one more slave. */
  function Lower(low: bv16, s: bv16): bv16 {
    if s & 0xf < low then s & 0xf else low
  }

  /** The lowest state, as the loop over all slaves finds it. */
  function Lowest(states: seq<bv16>): bv16 {
    if states == [] then 0xff
    else
      Lower(Lowest(states[..|states| - 1]), states[|states| - 1])
  }

  /** When the broadcast is conclusive, a slave is in the common state or in none. */
  lemma {:induction false} CommonStateOrNone(states: seq<bv16>, i: nat)
    requires i < |states| && Conclusive(OrAll(states))
    ensures states[i] & 0x10 == 0 && (states[i] & 0xf == 0 || states[i] & 0xf == OrAll(states) & 0xf)
  {
    OrContains(states, i);
    OneBit(states[i], OrAll(states));
  }

  lemma {:induction false} OrContains(states: seq<bv16>, i: nat)
    requires i < |states|
    ensures Contains(OrAll(states), states[i])
  {
    hide Or;
    hide Contains;
    var front, last := states[..|states| - 1], states[|states| - 1];
    if i < |front| {
      OrContains(front, i);
      assert states[i] == front[i];
      ContainsMore(OrAll(front), states[i], last);
    } else {
      ContainsSelf(OrAll(front), last);
    }
  }

  lemma {:induction false} ContainsMore(or: bv16, x: bv16, y: bv16)
    requires Contains(or, x)
    ensures Contains(Or(or, y), x)
  {
  }

  lemma {:induction false} ContainsSelf(or: bv16, y: bv16)
    ensures Contains(Or(or, y), y)
  {
  }

  lemma {:induction false} OneBit(x: bv16, or: bv16)
    requires Contains(or, x) && Conclusive(or)
    ensures x & 0x10 == 0 && (x & 0xf == 0 || x & 0xf == or & 0xf)
  {
  }

  lemma {:induction false} LowestOfSame(states: seq<bv16>, s: bv16)
    requires |states| > 0 && s < 0xff && forall i :: 0 <= i < |states| ==> states[i] & 0xf == s
    ensures Lowest(states) == s
  {
    var front := states[..|states| - 1];
    if |front| > 0 {
      assert forall i :: 0 <= i < |front| ==> front[i] & 0xf == s;
      LowestOfSame(front, s);
    } else {
      assert front == [];
    }
  }

  /** The path that needs one broadcast gives the states, and the lowest one, that the path with
      one datagram for each slave gives, if and only if no slave is in no state at all. */
  lemma {:induction false} BroadcastRefines(states: seq<bv16>)
    requires |states| > 0 && Conclusive(OrAll(states))
    ensures var common := OrAll(states) & 0xf;
            (Lowest(states) == common && forall i :: 0 <= i < |states| ==> states[i] & 0xf == common)
            <==> forall i :: 0 <= i < |states| ==> states[i] & 0xf != 0
  {
    var common := OrAll(states) & 0xf;
    assert common != 0 && common < 0xff;
    if forall i :: 0 <= i < |states| ==> states[i] & 0xf != 0 {
      forall i | 0 <= i < |states| ensures states[i] & 0xf == common {
        CommonStateOrNone(states, i);
      }
      hide Conclusive;
      hide OrAll;
      LowestOfSame(states, common);
    }
  }

  /** A slave in no state beside one in PRE_OP: the broadcast says PRE_OP, and the slave is not seen. */
  lemma {:induction false} HiddenSlave()
    ensures var states: seq<bv16> := [0, 2];
            Conclusive(OrAll(states)) && OrAll(states) & 0xf == 2 && Lowest(states) == 0
  {
    var states: seq<bv16> := [0, 2];
    assert states[..1] == [0] && [0][..0] == [];
  }

  // The method

  /** What the slave list holds of a slave; entry 0 is the master, for all slaves together. */
  datatype Slave = Slave(configadr: uint16, state: bv16, ALstatuscode: bv16)

  function StateOf(status: seq<byte>): bv16
    requires |status| == ALSTATUS_SIZE
  {
    Word(status, 0) as bv16
  }

  function CodeOf(status: seq<byte>): bv16
    requires |status| == ALSTATUS_SIZE
  {
    Word(status, 4) as bv16
  }

  /** The record of a slave that tells the truth about it. */
  function Updated(s: Slave, regs: Registers): Slave {
    var a := regs.al(s.configadr);
    s.(state := a.alstatus as bv16, ALstatuscode := a.alstatuscode as bv16)
  }

  /** The states of slaves 1 to `n`, as they are. */
  function StatesUpTo(list: seq<Slave>, regs: Registers, n: nat): (states: seq<bv16>)
    requires n < |list|
    ensures |states| == n
  {
    if n == 0 then [] else StatesUpTo(list, regs, n - 1) + [Updated(list[n], regs).state]
  }

  function CodesUpTo(list: seq<Slave>, regs: Registers, n: nat): (codes: seq<bv16>)
    requires n < |list|
    ensures |codes| == n
  {
    if n == 0 then [] else CodesUpTo(list, regs, n - 1) + [Updated(list[n], regs).ALstatuscode]
  }

  /** The list once slaves 1 to `n` are read one by one. */
  ghost predicate ReadUpTo(list: seq<Slave>, now: seq<Slave>, regs: Registers, n: nat) {
    && |now| == |list| && n < |list|
    && (forall i :: 1 <= i <= n ==> now[i] == Updated(list[i], regs))
    && (forall i :: n < i < |list| ==> now[i] == list[i])
    && now[0].ALstatuscode == OrAll(CodesUpTo(list, regs, n))
  }

  lemma {:induction false} OneMoreState(list: seq<Slave>, regs: Registers, n: nat)
    requires n + 1 < |list|
    ensures var s := Updated(list[n + 1], regs);
            && OrAll(CodesUpTo(list, regs, n + 1)) == Or(OrAll(CodesUpTo(list, regs, n)), s.ALstatuscode)
            && Lowest(StatesUpTo(list, regs, n + 1)) == Lower(Lowest(StatesUpTo(list, regs, n)), s.state)
  {
    hide Lower;
    hide Or;
    hide Updated;
    var codes, states := CodesUpTo(list, regs, n + 1), StatesUpTo(list, regs, n + 1);
    assert codes[..n] == CodesUpTo(list, regs, n);
    assert states[..n] == StatesUpTo(list, regs, n);
  }

  lemma {:induction false} ReadOneMore(list: seq<Slave>, now: seq<Slave>, regs: Registers, n: nat, status: seq<byte>)
    requires n + 1 < |list| && ReadUpTo(list, now, regs, n)
    requires |status| == ALSTATUS_SIZE && status == Register(regs.al(list[n + 1].configadr))
    ensures |now| == |list|
    ensures var s := now[n + 1].(state := StateOf(status), ALstatuscode := CodeOf(status));
            var master := now[0].(ALstatuscode := Or(now[0].ALstatuscode, s.ALstatuscode));
            && ReadUpTo(list, now[n + 1 := s][0 := master], regs, n + 1)
            && Lowest(StatesUpTo(list, regs, n + 1)) == Lower(Lowest(StatesUpTo(list, regs, n)), s.state)
  {
    hide Lower;
    hide OrAll;
    hide Lowest;
    hide Or;
    hide StateOf;
    hide CodeOf;
    hide StatesUpTo;
    hide CodesUpTo;
    hide Updated;
    OneMoreState(list, regs, n);
    UpdatedIs(list[n + 1], regs, status);
  }

  lemma {:induction false} UpdatedIs(s: Slave, regs: Registers, status: seq<byte>)
    requires |status| == ALSTATUS_SIZE && status == Register(regs.al(s.configadr))
    ensures Updated(s, regs) == s.(state := StateOf(status), ALstatuscode := CodeOf(status))
  {
    StatusDecodes(regs.al(s.configadr));
    hide StateOf;
    hide CodeOf;
    hide Register;
  }

  /** Status and code are read from where the slave has them. */
  lemma {:induction false} StatusDecodes(a: AlStatus)
    ensures StateOf(Register(a)) == a.alstatus as bv16 && CodeOf(Register(a)) == a.alstatuscode as bv16
  {
    assert a.alstatus == a.alstatus % 0x100 + 0x100 * (a.alstatus / 0x100);
    assert a.alstatuscode == a.alstatuscode % 0x100 + 0x100 * (a.alstatuscode / 0x100);
  }

  /** The statuses of slaves `fslave` on. */
  ghost predicate StatusesOf(sl: seq<seq<byte>>, list: seq<Slave>, fslave: nat, regs: Registers)
    requires fslave + |sl| <= |list|
  {
    forall j :: 0 <= j < |sl| ==> |sl[j]| == ALSTATUS_SIZE && sl[j] == Register(regs.al(list[fslave + j].configadr))
  }

  lemma {:induction false} StatusAtSlave(sl: seq<seq<byte>>, list: seq<Slave>, fslave: nat, regs: Registers, j: nat)
    requires fslave + |sl| <= |list| && StatusesOf(sl, list, fslave, regs) && j < |sl|
    ensures |sl[j]| == ALSTATUS_SIZE && sl[j] == Register(regs.al(list[fslave + j].configadr))
  {
  }

  lemma {:induction false} StatusesFit(
    slca: seq<uint16>, list: seq<Slave>, fslave: nat, network: Network, regs: Registers)
    requires fslave + |slca| <= |list| && Answers(network, regs)
    requires forall j :: 0 <= j < |slca| ==> slca[j] == list[fslave + j].configadr
    ensures StatusesOf(StatusList(slca, regs), list, fslave, regs)
  {
    hide FrameHolds;
  }

  /** Takes over the statuses of slaves `fslave` on. */
  method StoreStates(slavelist: array<Slave>, fslave: nat, sl: seq<seq<byte>>, lowest0: bv16,
                     ghost list: seq<Slave>, ghost regs: Registers) returns (lowest: bv16)
    requires 1 <= fslave && |sl| > 0 && fslave + |sl| <= slavelist.Length == |list|
    requires ReadUpTo(list, slavelist[..], regs, fslave - 1)
    requires lowest0 == Lowest(StatesUpTo(list, regs, fslave - 1))
    requires StatusesOf(sl, list, fslave, regs)
    modifies slavelist
    ensures ReadUpTo(list, slavelist[..], regs, fslave + |sl| - 1)
    ensures lowest == Lowest(StatesUpTo(list, regs, fslave + |sl| - 1))
  {
    hide OrAll;
    hide Lowest;
    hide ReadUpTo;
    hide StateOf;
    hide CodeOf;
    hide Or;
    hide StatusesOf;
    lowest := lowest0;
    for slave := fslave to fslave + |sl|
      invariant ReadUpTo(list, slavelist[..], regs, slave - 1)
      invariant lowest == Lowest(StatesUpTo(list, regs, slave - 1))
    {
      var status := sl[slave - fslave];
      StatusAtSlave(sl, list, fslave, regs, slave - fslave);
      ReadOneMore(list, slavelist[..], regs, slave - 1, status);
      var rval := StateOf(status);
      var code := CodeOf(status);
      if rval & 0xf < lowest {
        lowest := rval & 0xf;
      }
      slavelist[slave] := slavelist[slave].(state := rval, ALstatuscode := code);
      slavelist[0] := slavelist[0].(ALstatuscode := Or(slavelist[0].ALstatuscode, code));
    }
  }

  lemma {:induction false} NothingRead(list: seq<Slave>, regs: Registers)
    requires |list| > 0 && list[0].ALstatuscode == 0
    ensures ReadUpTo(list, list, regs, 0) && Lowest(StatesUpTo(list, regs, 0)) == 0xff
  {
    hide Updated;
  }

  /** Reads all slaves one by one, in batches of up to 64: every slave is in exactly one batch. */
  method ReadEach(
    frame: array<byte>, idx: byte, slavelist: array<Slave>, network: Network, ghost regs: Registers)
      returns (lowest: bv16)
    requires frame.Length == EC_BUFSIZE && slavelist.Length >= 2 && slavelist[0].ALstatuscode == 0
    requires Answers(network, regs) && frame as object != slavelist
    modifies frame, slavelist
    ensures ReadUpTo(old(slavelist[..]), slavelist[..], regs, slavelist.Length - 1)
    ensures lowest == Lowest(StatesUpTo(old(slavelist[..]), regs, slavelist.Length - 1))
  {
    ghost var list := slavelist[..];
    var slavecount := slavelist.Length - 1;
    lowest := 0xff;
    var fslave: nat, lslave: nat := 1, 0;
    var more := true;
    NothingRead(list, regs);
    hide ReadUpTo;
    hide Lowest;
    hide StatesUpTo;
    hide Answers;
    while more
      invariant 1 <= fslave && |list| == slavelist.Length && lslave == fslave - 1 <= slavecount
        && (more ==> lslave < slavecount) && (!more ==> lslave == slavecount)
      invariant ReadUpTo(list, slavelist[..], regs, lslave)
      invariant lowest == Lowest(StatesUpTo(list, regs, lslave))
      decreases slavecount - lslave, more
    {
      lslave := slavecount;
      if lslave - fslave >= MAX_FPRD_MULTI {
        lslave := fslave + MAX_FPRD_MULTI - 1;
      }
      lowest := ReadBatch(frame, idx, slavelist, fslave, lslave, network, lowest, list, regs);
      fslave := lslave + 1;
      more := lslave < slavecount;
    }
  }

  method ReadBatch(frame: array<byte>, idx: byte, slavelist: array<Slave>, fslave: nat, lslave: nat, network: Network,
                   lowest0: bv16, ghost list: seq<Slave>, ghost regs: Registers) returns (lowest: bv16)
    requires frame.Length == EC_BUFSIZE && 1 <= fslave <= lslave < slavelist.Length && lslave - fslave < MAX_FPRD_MULTI
    requires Answers(network, regs) && frame as object != slavelist
    requires |list| == slavelist.Length
    requires ReadUpTo(list, slavelist[..], regs, fslave - 1) && lowest0 == Lowest(StatesUpTo(list, regs, fslave - 1))
    modifies frame, slavelist
    ensures ReadUpTo(list, slavelist[..], regs, lslave) && lowest == Lowest(StatesUpTo(list, regs, lslave))
  {
    hide ReadUpTo;
    hide Lowest;
    hide StatusesOf;
    hide Answers;
    hide StatesUpTo;
    ghost var now := slavelist[..];
    var slca := CollectAddresses(slavelist, fslave, lslave);
    NotReadYet(list, now, regs, fslave - 1, slca);
    StatusesFit(slca, list, fslave, network, regs);
    var sl := FPRDMulti(frame, idx, slca, network, regs);
    assert slavelist[..] == now;
    lowest := StoreStates(slavelist, fslave, sl, lowest0, list, regs);
  }

  method CollectAddresses(slavelist: array<Slave>, fslave: nat, lslave: nat) returns (slca: seq<uint16>)
    requires fslave <= lslave < slavelist.Length
    ensures |slca| == lslave - fslave + 1
    ensures forall j :: 0 <= j < |slca| ==> slca[j] == slavelist[..][fslave + j].configadr
  {
    slca := [];
    for slave := fslave to lslave + 1
      invariant |slca| == slave - fslave
      invariant forall j :: 0 <= j < |slca| ==> slca[j] == slavelist[..][fslave + j].configadr
    {
      slca := slca + [slavelist[slave].configadr];
    }
  }

  lemma {:induction false} NotReadYet(list: seq<Slave>, now: seq<Slave>, regs: Registers, n: nat, slca: seq<uint16>)
    requires ReadUpTo(list, now, regs, n) && n + |slca| < |list|
    requires forall j :: 0 <= j < |slca| ==> slca[j] == now[n + 1 + j].configadr
    ensures forall j :: 0 <= j < |slca| ==> slca[j] == list[n + 1 + j].configadr
  {
    hide CodesUpTo;
    hide OrAll;
    hide Updated;
  }

  /** What the broadcast tells: how many slaves answered, and all their states combined. */
  datatype Broadcast = Broadcast(wkc: int, rval: bv16)

  /** What either path leaves in the slave list, and the lowest state it returns. */
  ghost predicate StatesRead(list: seq<Slave>, now: seq<Slave>, lowest: bv16, brd: Broadcast, regs: Registers) {
    && |now| == |list| >= 2
    && if brd.wkc >= |list| - 1 && Conclusive(brd.rval) then
         && lowest == brd.rval & 0xf && now[0].ALstatuscode == 0
         && forall i :: 1 <= i < |list| ==> now[i] == list[i].(state := brd.rval & 0xf, ALstatuscode := 0)
       else
         && lowest == Lowest(StatesUpTo(list, regs, |list| - 1))
         && now[0].ALstatuscode == OrAll(CodesUpTo(list, regs, |list| - 1))
         && forall i :: 1 <= i < |list| ==> now[i] == Updated(list[i], regs)
  }

  /** Every slave of the list has the status and the code that it really has, entry 0 the codes of
      all of them combined, and `lowest` is the least of the states. */
  ghost predicate ListIsTrue(list: seq<Slave>, now: seq<Slave>, lowest: bv16, regs: Registers) {
    && |now| == |list|
    && (forall i :: 1 <= i < |list| ==>
          && now[i].configadr == list[i].configadr
          && now[i].state == regs.al(list[i].configadr).alstatus as bv16
          && now[i].ALstatuscode == regs.al(list[i].configadr).alstatuscode as bv16)
    && (forall i :: 1 <= i < |list| ==> lowest <= now[i].state & 0xf)
    && (exists i :: 1 <= i < |list| && lowest == now[i].state & 0xf)
    && (forall i :: 1 <= i < |list| ==> Contains(now[0].ALstatuscode, now[i].ALstatuscode))
    && (forall all :: (forall i :: 1 <= i < |list| ==> Contains(all, now[i].ALstatuscode)) ==>
                        Contains(all, now[0].ALstatuscode))
  }

  lemma {:induction false} LowestIsLeast(states: seq<bv16>) returns (least: nat)
    requires |states| > 0
    ensures forall i :: 0 <= i < |states| ==> Lowest(states) <= states[i] & 0xf
    ensures least < |states| && Lowest(states) == states[least] & 0xf
  {
    var front, last := states[..|states| - 1], states[|states| - 1];
    LowNibble(last);
    if |front| == 0 {
      assert Lowest(front) == 0xff;
      least := 0;
    } else {
      least := LowestIsLeast(front);
      assert forall i :: 0 <= i < |front| ==> Lowest(front) <= front[i] & 0xf;
      if last & 0xf < Lowest(front) {
        least := |front|;
      }
    }
  }

  lemma {:induction false} LowNibble(s: bv16)
    ensures s & 0xf < 0xff
  {
  }

  /** Nothing else is in the combination of all. */
  lemma {:induction false} OrIsWithin(codes: seq<bv16>, all: bv16)
    requires forall i :: 0 <= i < |codes| ==> Contains(all, codes[i])
    ensures Contains(all, OrAll(codes))
  {
    if |codes| > 0 {
      var front, last := codes[..|codes| - 1], codes[|codes| - 1];
      assert forall i :: 0 <= i < |front| ==> front[i] == codes[i];
      OrIsWithin(front, all);
      BothWithin(OrAll(front), last, all);
    }
  }

  lemma {:induction false} BothWithin(x: bv16, y: bv16, all: bv16)
    requires Contains(all, x) && Contains(all, y)
    ensures Contains(all, Or(x, y))
  {
  }

  lemma {:induction false} CodeUpToAt(list: seq<Slave>, regs: Registers, n: nat, i: nat)
    requires 1 <= i <= n < |list|
    ensures CodesUpTo(list, regs, n)[i - 1] == Updated(list[i], regs).ALstatuscode
  {
    hide Updated;
    if i < n {
      CodeUpToAt(list, regs, n - 1, i);
    }
  }

  /** When every slave is asked, the list tells the truth about all of them. */
  lemma {:induction false} AskedIsTrue(
    list: seq<Slave>, now: seq<Slave>, lowest: bv16, brd: Broadcast, regs: Registers)
    requires StatesRead(list, now, lowest, brd, regs) && !(brd.wkc >= |list| - 1 && Conclusive(brd.rval))
    ensures ListIsTrue(list, now, lowest, regs)
  {
    hide StatesUpTo;
    hide CodesUpTo;
    hide OrAll;
    hide Lowest;
    hide Contains;
    hide Conclusive;
    var n := |list| - 1;
    var states, codes := StatesUpTo(list, regs, n), CodesUpTo(list, regs, n);
    forall i | 1 <= i < |list| ensures states[i - 1] == now[i].state && codes[i - 1] == now[i].ALstatuscode {
      StateUpToAt(list, regs, n, i);
      CodeUpToAt(list, regs, n, i);
    }
    hide Updated;
    var least := LowestIsLeast(states);
    assert now[least + 1].state == states[least];
    CodesCombined(now, codes);
  }

  lemma {:induction false} CodesCombined(now: seq<Slave>, codes: seq<bv16>)
    requires |now| == |codes| + 1 && now[0].ALstatuscode == OrAll(codes)
    requires forall i :: 1 <= i < |now| ==> codes[i - 1] == now[i].ALstatuscode
    ensures forall i :: 1 <= i < |now| ==> Contains(now[0].ALstatuscode, now[i].ALstatuscode)
    ensures forall all :: (forall i :: 1 <= i < |now| ==> Contains(all, now[i].ALstatuscode)) ==>
                            Contains(all, now[0].ALstatuscode)
  {
    hide OrAll;
    hide Contains;
    forall i | 1 <= i < |now| ensures Contains(now[0].ALstatuscode, now[i].ALstatuscode) {
      OrContains(codes, i - 1);
    }
    forall all | forall i :: 1 <= i < |now| ==> Contains(all, now[i].ALstatuscode)
      ensures Contains(all, now[0].ALstatuscode)
    {
      assert forall i :: 0 <= i < |codes| ==> codes[i] == now[i + 1].ALstatuscode;
      OrIsWithin(codes, all);
    }
  }

  lemma {:induction false} StateUpToAt(list: seq<Slave>, regs: Registers, n: nat, i: nat)
    requires 1 <= i <= n < |list|
    ensures StatesUpTo(list, regs, n)[i - 1] == Updated(list[i], regs).state
  {
    hide Updated;
    if i < n {
      StateUpToAt(list, regs, n - 1, i);
    }
  }

  /** When the broadcast brings back the states of all slaves combined: state by state, and for the
      lowest one, the result is that of asking every slave, if and only if the broadcast was not
      conclusive or no slave is in no state at all. */
  lemma {:induction false} ReadStateIsTrue(
    list: seq<Slave>, now: seq<Slave>, lowest: bv16, brd: Broadcast, regs: Registers)
    requires StatesRead(list, now, lowest, brd, regs) && brd.rval == OrAll(StatesUpTo(list, regs, |list| - 1))
    ensures var states := StatesUpTo(list, regs, |list| - 1);
            (lowest == Lowest(states) && forall i :: 0 <= i < |states| ==> now[i + 1].state & 0xf == states[i] & 0xf)
            <==> (brd.wkc >= |list| - 1 && Conclusive(brd.rval) ==>
                    forall i :: 0 <= i < |states| ==> states[i] & 0xf != 0)
  {
    hide StatesUpTo;
    hide CodesUpTo;
    hide Updated;
    hide OrAll;
    hide Or;
    hide Lowest;
    hide Conclusive;
    var n := |list| - 1;
    var states := StatesUpTo(list, regs, n);
    if brd.wkc >= n && Conclusive(brd.rval) {
      BroadcastRefines(states);
      Nibbles(brd.rval);
      SameNibbles(now, states, brd.rval & 0xf);
    } else {
      forall i | 0 <= i < n ensures now[i + 1].state == states[i] {
        StateUpToAt(list, regs, n, i + 1);
      }
    }
  }

  lemma {:induction false} SameNibbles(now: seq<Slave>, states: seq<bv16>, common: bv16)
    requires |now| == |states| + 1 && common & 0xf == common
    requires forall i :: 1 <= i < |now| ==> now[i].state == common
    ensures (forall i :: 0 <= i < |states| ==> now[i + 1].state & 0xf == states[i] & 0xf)
            <==> forall i :: 0 <= i < |states| ==> states[i] & 0xf == common
  {
    if forall i :: 0 <= i < |states| ==> now[i + 1].state & 0xf == states[i] & 0xf {
      forall i | 0 <= i < |states| ensures states[i] & 0xf == common {
        assert now[i + 1].state & 0xf == states[i] & 0xf;
      }
    }
  }

  lemma {:induction false} Nibbles(x: bv16)
    ensures (x & 0xf) & 0xf == x & 0xf
  {
  }

  /** Reads the states of all slaves and returns the lowest one. */
  method ReadState(
    frame: array<byte>, idx: byte, slavelist: array<Slave>, brd: Broadcast, network: Network, ghost regs: Registers)
      returns (lowest: bv16)
    requires frame.Length == EC_BUFSIZE && slavelist.Length >= 2
    requires Answers(network, regs) && frame as object != slavelist
    modifies frame, slavelist
    ensures slavelist[0].state == lowest
    ensures StatesRead(old(slavelist[..]), slavelist[..], lowest, brd, regs)
    // a conclusive broadcast of all slaves is taken over, or else every slave is asked
    ensures if brd.wkc >= slavelist.Length - 1 && brd.rval & 0x1f in {1, 2, 4, 8}
            then lowest == brd.rval & 0xf && slavelist[0].ALstatuscode == 0
              && forall i :: 1 <= i < slavelist.Length ==>
                   && slavelist[i].configadr == old(slavelist[i]).configadr
                   && slavelist[i].state == lowest && slavelist[i].ALstatuscode == 0
            else ListIsTrue(old(slavelist[..]), slavelist[..], lowest, regs)
  {
    hide Answers;
    hide OrAll;
    hide Lowest;
    hide StatesUpTo;
    hide CodesUpTo;
    hide Updated;
    hide ListIsTrue;
    var slavecount := slavelist.Length - 1;
    var allslavespresent := brd.wkc >= slavecount;
    var rval := brd.rval;
    var bitwisestate := rval & 0xf;
    var noerrorflag := rval & 0x10 == 0;
    if noerrorflag {
      slavelist[0] := slavelist[0].(ALstatuscode := 0);
    }
    var allslavessamestate := bitwisestate == 1 || bitwisestate == 2 || bitwisestate == 4 || bitwisestate == 8;
    if allslavessamestate {
      slavelist[0] := slavelist[0].(state := bitwisestate);
    }
    if noerrorflag && allslavessamestate && allslavespresent {
      SetStates(slavelist, bitwisestate);
      lowest := bitwisestate;
      LowBits(brd.rval);
    } else {
      slavelist[0] := slavelist[0].(ALstatuscode := 0);
      ghost var list := slavelist[..];
      SameSlaves(old(slavelist[..]), list, regs, slavecount);
      lowest := ReadEach(frame, idx, slavelist, network, regs);
      slavelist[0] := slavelist[0].(state := lowest);
      LowBits(brd.rval);
      AskedIsTrue(old(slavelist[..]), slavelist[..], lowest, brd, regs);
    }
  }

  lemma {:induction false} LowBits(rval: bv16)
    ensures Conclusive(rval) <==> rval & 0x1f in {1, 2, 4, 8}
  {
  }

  /** All slaves have reached the same state, without an error. */
  method SetStates(slavelist: array<Slave>, state: bv16)
    requires slavelist.Length >= 1
    modifies slavelist
    ensures slavelist[0] == old(slavelist[0])
    ensures forall i :: 1 <= i < slavelist.Length ==>
      slavelist[i] == old(slavelist[i]).(state := state, ALstatuscode := 0)
  {
    for slave := 1 to slavelist.Length
      invariant slavelist[0] == old(slavelist[0])
      invariant forall i :: 1 <= i < slave ==>
        slavelist[i] == old(slavelist[i]).(state := state, ALstatuscode := 0)
      invariant forall i :: slave <= i < slavelist.Length ==> slavelist[i] == old(slavelist[i])
    {
      slavelist[slave] := slavelist[slave].(state := state, ALstatuscode := 0);
    }
  }

  /** The states depend on the slaves only, not on the entry of the master. */
  lemma {:induction false} SameSlaves(a: seq<Slave>, b: seq<Slave>, regs: Registers, n: nat)
    requires |a| == |b| && n < |a| && forall i :: 1 <= i <= n ==> a[i] == b[i]
    ensures StatesUpTo(a, regs, n) == StatesUpTo(b, regs, n) && CodesUpTo(a, regs, n) == CodesUpTo(b, regs, n)
  {
    if n > 0 {
      SameSlaves(a, b, regs, n - 1);
    }
  }
}
