/** EtherCAT datagrams in a frame buffer (ec_base.c): a chain is built in place, one datagram
    behind the other, and read back by following the "more follows" bit of each header. */
module Datagram {
  import opened EcTypes

  const EC_BUFSIZE: nat := 1518
  const ETH_HEADERSIZE: nat := 14
  const EC_HEADERSIZE: nat := 12
  const EC_ELENGTHSIZE: nat := 2
  const EC_WKCSIZE: nat := 2
  const EC_ECATTYPE: nat := 0x1000
  const EC_DATAGRAMFOLLOWS: nat := 0x8000

  const EC_CMD_NOP: byte := 0
  const EC_CMD_APRD: byte := 1
  const EC_CMD_FPRD: byte := 4
  const EC_CMD_BRD: byte := 7
  const EC_CMD_LRD: byte := 10
  const EC_CMD_LRW: byte := 12
  const EC_CMD_FRMW: byte := 14

  /** One datagram as it is on the wire, with its working counter. */
  datatype Datagram = Datagram(command: byte, index: byte, ADP: uint16, ADO: uint16, data: seq<byte>, wkc: uint16)

  function Put(f: seq<byte>, at: nat, bytes: seq<byte>): (r: seq<byte>)
    requires at + |bytes| <= |f|
    ensures |r| == |f|
  {
    f[..at] + bytes + f[at + |bytes|..]
  }

  /** The first eight bytes of a datagram; the two interrupt bytes behind them carry nothing. */
  function Header(d: Datagram, follows: bool): seq<byte> {
    [d.command, d.index, Lo(d.ADP), Hi(d.ADP), Lo(d.ADO), Hi(d.ADO),
     Lo(|d.data|), Hi(|d.data| + (if follows then EC_DATAGRAMFOLLOWS else 0))]
  }

  /** Bytes of a datagram: header, data, working counter. */
  function Bytes(d: Datagram): nat {
    EC_HEADERSIZE - EC_ELENGTHSIZE + |d.data| + EC_WKCSIZE
  }

  /** The datagram lies in the frame at position `p`. */
  ghost predicate Sits(f: seq<byte>, p: nat, d: Datagram, follows: bool) {
    && p + Bytes(d) <= |f| && |d.data| < 0x800
    && f[p..p + 8] == Header(d, follows)
    && f[p + 10..p + 10 + |d.data|] == d.data
    && f[p + 10 + |d.data|..p + Bytes(d)] == [Lo(d.wkc), Hi(d.wkc)]
  }

  /** Position of datagram `i` of a chain in its frame; for `i == |ds|`, the length of the frame. */
  function Pos(ds: seq<Datagram>, i: nat): (p: nat)
    requires i <= |ds|
    ensures p >= ETH_HEADERSIZE + EC_ELENGTHSIZE
  {
    if i == 0 then ETH_HEADERSIZE + EC_ELENGTHSIZE else Pos(ds, i - 1) + Bytes(ds[i - 1])
  }

  /** The first `length` bytes of the frame are the chain `ds`; `more` announces one more. */
  ghost predicate FrameHolds(f: seq<byte>, length: nat, ds: seq<Datagram>, more: bool) {
    && |f| == EC_BUFSIZE && length == Pos(ds, |ds|) <= EC_BUFSIZE
    && Word(f, ETH_HEADERSIZE) as int == EC_ECATTYPE + length - ETH_HEADERSIZE - EC_ELENGTHSIZE
    && forall i :: 0 <= i < |ds| ==> Sits(f, Pos(ds, i), ds[i], i < |ds| - 1 || more)
  }

  // Reading

  /** Reads the chain that starts at `p` and is followed by nothing. */
  function ParseChain(f: seq<byte>, p: nat): Option<seq<Datagram>>
    decreases |f| - p
  {
    if p + 12 > |f| then None
    else
      var w := Word(f, p + 6) as int;
      var n: nat := w % 0x800;
      if p + 12 + n > |f| then None
      else
        var d := Datagram(f[p], f[p + 1], Word(f, p + 2), Word(f, p + 4), f[p + 10..p + 10 + n], Word(f, p + 10 + n));
        if w < EC_DATAGRAMFOLLOWS then (if p + 12 + n == |f| then Some([d]) else None)
        else
          Prepend(d, ParseChain(f, p + 12 + n))
  }

  function Prepend(d: Datagram, rest: Option<seq<Datagram>>): Option<seq<Datagram>> {
    match rest
    case None => None
    case Some(ds) => Some([d] + ds)
  }

  /** Reads a whole frame; its EtherCAT header says where it ends. */
  function ParseFrame(f: seq<byte>): Option<seq<Datagram>>
  {
    if |f| < ETH_HEADERSIZE + EC_ELENGTHSIZE then None
    else
      var end := ETH_HEADERSIZE + EC_ELENGTHSIZE + Word(f, ETH_HEADERSIZE) as int % 0x1000;
      if end > |f| then None else ParseChain(f[..end], ETH_HEADERSIZE + EC_ELENGTHSIZE)
  }

  lemma {:induction false} ParseOne(f: seq<byte>, p: nat, d: Datagram, follows: bool)
    requires Sits(f, p, d, follows)
    ensures Word(f, p + 6) as int == |d.data| + (if follows then EC_DATAGRAMFOLLOWS else 0)
    ensures Datagram(f[p], f[p + 1], Word(f, p + 2), Word(f, p + 4), f[p + 10..p + 10 + |d.data|],
                     Word(f, p + 10 + |d.data|)) == d
  {
    var h := f[p..p + 8];
    var w := f[p + 10 + |d.data|..p + Bytes(d)];
    assert forall i :: 0 <= i < 8 ==> h[i] == f[p + i];
    assert w[0] == f[p + 10 + |d.data|] && w[1] == f[p + 11 + |d.data|];
  }

  lemma {:induction false} ParseStep(f: seq<byte>, p: nat, d: Datagram, follows: bool)
    requires Sits(f, p, d, follows)
    ensures ParseChain(f, p) == if follows then Prepend(d, ParseChain(f, p + Bytes(d)))
                                else if p + Bytes(d) == |f| then Some([d]) else None
  {
    ParseOne(f, p, d, follows);
    assert p + 12 + |d.data| <= |f| && |d.data| < 0x800;
    assert (|d.data| + EC_DATAGRAMFOLLOWS) % 0x800 == |d.data|;
    hide Sits;
    hide Word;
  }

  lemma {:induction false} ParseFrom(f: seq<byte>, ds: seq<Datagram>, i: nat)
    requires i < |ds| && |f| == Pos(ds, |ds|)
    requires forall k :: 0 <= k < |ds| ==> Sits(f, Pos(ds, k), ds[k], k < |ds| - 1)
    ensures ParseChain(f, Pos(ds, i)) == Some(ds[i..])
    decreases |ds| - i
  {
    hide Sits;
    hide ParseChain;
    hide Pos;
    hide Bytes;
    hide Prepend;
    var p, d, follows := Pos(ds, i), ds[i], i < |ds| - 1;
    assert Sits(f, p, d, follows);
    ParseStep(f, p, d, follows);
    PosNext(ds, i);
    if follows {
      ParseFrom(f, ds, i + 1);
      PrependNext(ds, i);
    } else {
      assert ds[i..] == [d];
    }
  }

  lemma {:induction false} PrependNext(ds: seq<Datagram>, i: nat)
    requires i < |ds|
    ensures Prepend(ds[i], Some(ds[i + 1..])) == Some(ds[i..])
  {
    assert ds[i..] == [ds[i]] + ds[i + 1..];
  }

  lemma {:induction false} PosNext(ds: seq<Datagram>, i: nat)
    requires i < |ds|
    ensures Pos(ds, i + 1) == Pos(ds, i) + Bytes(ds[i])
  {
  }

  lemma {:induction false} PosGrows(ds: seq<Datagram>, i: nat, j: nat)
    requires i <= j <= |ds|
    ensures Pos(ds, i) + 12 * (j - i) <= Pos(ds, j)
    ensures i < j ==> Pos(ds, i) + Bytes(ds[i]) <= Pos(ds, j)
    decreases j - i
  {
    if i < j {
      PosGrows(ds, i, j - 1);
    }
  }

  lemma {:induction false} SitsInPrefix(f: seq<byte>, end: nat, p: nat, d: Datagram, follows: bool)
    requires Sits(f, p, d, follows) && p + Bytes(d) <= end <= |f|
    ensures Sits(f[..end], p, d, follows)
  {
    assert f[..end][p..p + 8] == f[p..p + 8];
    assert f[..end][p + 10..p + 10 + |d.data|] == f[p + 10..p + 10 + |d.data|];
    assert f[..end][p + 10 + |d.data|..p + Bytes(d)] == f[p + 10 + |d.data|..p + Bytes(d)];
  }

  /** A chain that announces no more is read back as exactly the datagrams it was built from. */
  lemma {:induction false} ParseReadsChain(f: seq<byte>, length: nat, ds: seq<Datagram>)
    requires |ds| > 0 && FrameHolds(f, length, ds, false)
    ensures ParseFrame(f) == Some(ds)
  {
    ChainInPrefix(f, length, ds);
    FrameEnds(f, length);
    assert Pos(ds, 0) == 16 && ds[0..] == ds;
    hide Sits;
    hide ParseChain;
    hide ParseFrame;
    hide Word;
    hide Pos;
    ParseFrom(f[..length], ds, 0);
  }

  lemma {:induction false} FrameEnds(f: seq<byte>, length: nat)
    requires 16 <= length <= |f| == EC_BUFSIZE
    requires Word(f, ETH_HEADERSIZE) as int == EC_ECATTYPE + length - ETH_HEADERSIZE - EC_ELENGTHSIZE
    ensures ParseFrame(f) == ParseChain(f[..length], 16)
  {
    hide Word;
    hide ParseChain;
    assert (EC_ECATTYPE + length - 16) % 0x1000 == length - 16;
  }

  lemma {:induction false} ChainInPrefix(f: seq<byte>, length: nat, ds: seq<Datagram>)
    requires |ds| > 0 && FrameHolds(f, length, ds, false)
    ensures forall k :: 0 <= k < |ds| ==> Sits(f[..length], Pos(ds, k), ds[k], k < |ds| - 1)
  {
    hide Sits;
    hide Word;
    hide Pos;
    hide Bytes;
    forall k | 0 <= k < |ds| ensures Sits(f[..length], Pos(ds, k), ds[k], k < |ds| - 1) {
      PosGrows(ds, k, |ds|);
      SitsInPrefix(f, length, Pos(ds, k), ds[k], k < |ds| - 1);
    }
  }

  /** In the received frame, which lacks the Ethernet header, the last working counter is found
      at the length that the EtherCAT header gives. */
  lemma {:induction false} LastWkcAtLength(f: seq<byte>, length: nat, ds: seq<Datagram>, more: bool)
    requires |ds| > 0 && FrameHolds(f, length, ds, more)
    ensures var rx := f[ETH_HEADERSIZE..];
            var l := Word(rx, 0) as int % 0x1000;
            l + 2 == length - ETH_HEADERSIZE && Word(rx, l) == ds[|ds| - 1].wkc
  {
    hide Sits;
    hide Word;
    hide Bytes;
    var n := |ds| - 1;
    assert Sits(f, Pos(ds, n), ds[n], n < |ds| - 1 || more);
    PosNext(ds, n);
    hide Pos;
    LengthInHeader(f, length);
    WkcBehindData(f, Pos(ds, n), ds[n], more);
  }

  lemma {:induction false} LengthInHeader(f: seq<byte>, length: nat)
    requires |f| == EC_BUFSIZE && 16 <= length <= EC_BUFSIZE
    requires Word(f, ETH_HEADERSIZE) as int == EC_ECATTYPE + length - 16
    ensures Word(f[ETH_HEADERSIZE..], 0) as int % 0x1000 == length - 16
  {
    assert Word(f[ETH_HEADERSIZE..], 0) == Word(f, ETH_HEADERSIZE);
    hide Word;
    assert (EC_ECATTYPE + length - 16) % 0x1000 == length - 16;
  }

  lemma {:induction false} WkcBehindData(f: seq<byte>, p: nat, d: Datagram, more: bool)
    requires Sits(f, p, d, more) && p >= 16
    ensures p + Bytes(d) - 16 + 1 < |f[ETH_HEADERSIZE..]| && Word(f[ETH_HEADERSIZE..], p + Bytes(d) - 16) == d.wkc
  {
    ParseOne(f, p, d, more);
    hide Sits;
    assert f[ETH_HEADERSIZE..][p + Bytes(d) - 16] == f[p + Bytes(d) - 2];
  }

  // Building

  /** The data of a datagram; commands that only read carry zeros. */
  function OnWire(com: byte, data: seq<byte>): (r: seq<byte>)
    ensures |r| == |data|
    ensures forall i :: 0 <= i < |r| ==> r[i] == if com in {0, 1, 4, 7, 10} then 0 else data[i]
  {
    if com in [EC_CMD_NOP, EC_CMD_APRD, EC_CMD_FPRD, EC_CMD_BRD, EC_CMD_LRD] then seq(|data|, i => 0 as byte) else data
  }

  function NewDatagram(com: byte, idx: byte, ADP: uint16, ADO: uint16, data: seq<byte>): Datagram {
    Datagram(com, idx, ADP, ADO, OnWire(com, data), 0)
  }

  method Write(frame: array<byte>, at: nat, bytes: seq<byte>)
    requires at + |bytes| <= frame.Length
    modifies frame
    ensures frame[..] == Put(old(frame[..]), at, bytes)
  {
    forall i | 0 <= i < |bytes| {
      frame[at + i] := bytes[i];
    }
  }

  method WriteDatagramData(frame: array<byte>, at: nat, com: byte, data: seq<byte>)
    requires at + |data| <= frame.Length
    modifies frame
    ensures frame[..] == Put(old(frame[..]), at, OnWire(com, data))
  {
    if |data| > 0 {
      if com == EC_CMD_NOP || com == EC_CMD_APRD || com == EC_CMD_FPRD || com == EC_CMD_BRD || com == EC_CMD_LRD {
        // no data to write, so the frame is put in a known state
        Write(frame, at, seq(|data|, i => 0 as byte));
      } else {
        Write(frame, at, data);
      }
    }
  }

  lemma {:induction false} SitsElsewhere(f: seq<byte>, at: nat, bytes: seq<byte>, p: nat, d: Datagram, follows: bool)
    requires Sits(f, p, d, follows) && at + |bytes| <= |f| && (p + Bytes(d) <= at || at + |bytes| <= p)
    ensures Sits(Put(f, at, bytes), p, d, follows)
  {
    var g := Put(f, at, bytes);
    assert g[p..p + 8] == f[p..p + 8];
    assert g[p + 10..p + 10 + |d.data|] == f[p + 10..p + 10 + |d.data|];
    assert g[p + 10 + |d.data|..p + Bytes(d)] == f[p + 10 + |d.data|..p + Bytes(d)];
  }

  /** The three parts of a datagram, written at `p`. */
  function Placed(f: seq<byte>, p: nat, d: Datagram, follows: bool): (r: seq<byte>)
    requires p + Bytes(d) <= |f|
    ensures |r| == |f|
  {
    Put(Put(Put(f, p, Header(d, follows)), p + 10, d.data), p + 10 + |d.data|, [Lo(d.wkc), Hi(d.wkc)])
  }

  method PlaceDatagram(frame: array<byte>, p: nat, com: byte, idx: byte, more: bool, ADP: uint16, ADO: uint16,
                       data: seq<byte>)
    requires p + 12 + |data| <= frame.Length
    modifies frame
    ensures frame[..] == Placed(old(frame[..]), p, NewDatagram(com, idx, ADP, ADO, data), more)
  {
    hide Put;
    hide OnWire;
    var length := |data|;
    var dlength := length + (if more then EC_DATAGRAMFOLLOWS else 0);
    Write(frame, p, [com, idx, Lo(ADP), Hi(ADP), Lo(ADO), Hi(ADO), Lo(length), Hi(dlength)]);
    WriteDatagramData(frame, p + 10, com, data);
    Write(frame, p + 10 + length, [0, 0]);
  }

  lemma {:induction false} SitsPlaced(f: seq<byte>, p: nat, d: Datagram, follows: bool)
    requires p + Bytes(d) <= |f| && |d.data| < 0x800
    ensures Sits(Placed(f, p, d, follows), p, d, follows)
    ensures Placed(f, p, d, follows)[..p] == f[..p]
  {
    var f1 := Put(f, p, Header(d, follows));
    var f2 := Put(f1, p + 10, d.data);
    var f3 := Placed(f, p, d, follows);
    assert f1[p..p + 8] == Header(d, follows);
    assert f2[p..p + 8] == f1[p..p + 8] == f3[p..p + 8];
    assert f2[p + 10..p + 10 + |d.data|] == d.data == f3[p + 10..p + 10 + |d.data|];
  }

  lemma {:induction false} SetupHolds(f: seq<byte>, d: Datagram, elength: nat)
    requires |f| == EC_BUFSIZE && 16 + Bytes(d) <= EC_BUFSIZE && elength == EC_ECATTYPE + Bytes(d)
    ensures var g := Placed(Put(f, ETH_HEADERSIZE, [Lo(elength), Hi(elength)]), 16, d, false);
            FrameHolds(g, 16 + Bytes(d), [d], false) && g[..ETH_HEADERSIZE] == f[..ETH_HEADERSIZE]
  {
    var f1 := Put(f, ETH_HEADERSIZE, [Lo(elength), Hi(elength)]);
    var g := Placed(f1, 16, d, false);
    SitsPlaced(f1, 16, d, false);
    hide Sits;
    hide Placed;
    assert g[..16][..14] == f1[..16][..14] == f[..14];
    assert g[14] == g[..16][14] == f1[14] == Lo(elength);
    assert g[15] == g[..16][15] == f1[15] == Hi(elength);
    assert Pos([d], 0) == 16;
    assert Pos([d], 1) == 16 + Bytes(d);
  }

  /** Starts a frame with one datagram, which nothing follows yet; returns the frame's length. */
  method SetupDatagram(frame: array<byte>, com: byte, idx: byte, ADP: uint16, ADO: uint16, data: seq<byte>)
      returns (txbuflength: nat)
    requires frame.Length == EC_BUFSIZE && 28 + |data| <= EC_BUFSIZE
    modifies frame
    ensures FrameHolds(frame[..], txbuflength, [NewDatagram(com, idx, ADP, ADO, data)], false)
    ensures frame[..ETH_HEADERSIZE] == old(frame[..ETH_HEADERSIZE])
    ensures txbuflength == 28 + |data|
  {
    hide FrameHolds;
    hide Placed;
    hide Put;
    hide OnWire;
    var elength := EC_ECATTYPE + EC_HEADERSIZE + |data|;
    SetupHolds(frame[..], NewDatagram(com, idx, ADP, ADO, data), elength);
    Write(frame, ETH_HEADERSIZE, [Lo(elength), Hi(elength)]);
    PlaceDatagram(frame, ETH_HEADERSIZE + EC_ELENGTHSIZE, com, idx, false, ADP, ADO, data);
    txbuflength := ETH_HEADERSIZE + EC_HEADERSIZE + EC_WKCSIZE + |data|;
  }

  function Followed(dlength: nat): nat {
    if dlength < EC_DATAGRAMFOLLOWS then dlength + EC_DATAGRAMFOLLOWS else dlength
  }

  /** The header with the follow bit set. */
  lemma {:induction false} FollowHeader(f: seq<byte>, p: nat, d: Datagram, follows: bool)
    requires p + 8 <= |f| && |d.data| < 0x800 && f[p..p + 8] == Header(d, follows)
    ensures var w := Followed(Word(f, p + 6) as int);
            w == |d.data| + EC_DATAGRAMFOLLOWS && f[p..p + 6] + [Lo(w), Hi(w)] == Header(d, true)
  {
    var v := |d.data| + (if follows then EC_DATAGRAMFOLLOWS else 0);
    LoHi(v);
    SameLo(|d.data|);
    hide Lo;
    hide Hi;
    assert Word(f, p + 6) == Word(f[p..p + 8], 6) == v;
    var w := Followed(v);
    assert f[p..p + 6] == f[p..p + 8][..6] == Header(d, true)[..6];
    assert Header(d, true) == Header(d, true)[..6] + [Lo(|d.data|), Hi(w)];
  }

  lemma {:induction false} LoHi(v: nat)
    requires v < 0x1_0000
    ensures Lo(v) + 0x100 * Hi(v) == v
  {
  }

  lemma {:induction false} SameLo(v: nat)
    ensures Lo(v + EC_DATAGRAMFOLLOWS) == Lo(v)
  {
  }

  /** Setting the follow bit of a datagram changes nothing else of it. */
  lemma {:induction false} FollowBitSet(f: seq<byte>, p: nat, d: Datagram, follows: bool)
    requires Sits(f, p, d, follows)
    ensures var w := Followed(Word(f, p + 6) as int);
            Sits(Put(f, p + 6, [Lo(w), Hi(w)]), p, d, true)
  {
    FollowHeader(f, p, d, follows);
    var w := Followed(Word(f, p + 6) as int);
    hide Header;
    hide Followed;
    hide Word;
    hide Lo;
    hide Hi;
    var g := Put(f, p + 6, [Lo(w), Hi(w)]);
    assert g[p..p + 8] == f[p..p + 6] + [Lo(w), Hi(w)];
    assert g[p + 10..p + 10 + |d.data|] == f[p + 10..p + 10 + |d.data|];
    assert g[p + 10 + |d.data|..p + Bytes(d)] == f[p + 10 + |d.data|..p + Bytes(d)];
  }

  lemma {:induction false} PosPrefix(ds: seq<Datagram>, d: Datagram, i: nat)
    requires i <= |ds|
    ensures Pos(ds + [d], i) == Pos(ds, i)
  {
    if i > 0 {
      PosPrefix(ds, d, i - 1);
    }
  }

  /** The three writes that add a datagram: length of the frame, follow bit of the first
      datagram, the new datagram. */
  function Added(f: seq<byte>, prevlength: nat, d: Datagram, more: bool): (r: seq<byte>)
    requires |f| == EC_BUFSIZE && prevlength + Bytes(d) <= EC_BUFSIZE
    ensures |r| == |f|
  {
    var elength: nat := Word(f, ETH_HEADERSIZE) as int + Bytes(d);
    var f1 := Put(f, ETH_HEADERSIZE, [Lo(elength), Hi(elength)]);
    var dlength := Followed(Word(f1, 22) as int);
    Placed(Put(f1, 22, [Lo(dlength), Hi(dlength)]), prevlength, d, more)
  }

  /** A frame that begins as one does whose length was set has that length. */
  lemma {:induction false} LengthFields(f: seq<byte>, g: seq<byte>, elength: nat)
    requires |f| == |g| >= 16 && elength < 0x1_0000
    requires g[..16] == Put(f, ETH_HEADERSIZE, [Lo(elength), Hi(elength)])[..16]
    ensures Word(g, ETH_HEADERSIZE) as int == elength && g[..ETH_HEADERSIZE] == f[..ETH_HEADERSIZE]
  {
    assert g[14] == g[..16][14] && g[15] == g[..16][15];
    assert g[..14] == g[..16][..14] == f[..14];
  }

  lemma {:induction false} AddedLength(f: seq<byte>, prevlength: nat, d: Datagram, more: bool)
    requires |f| == EC_BUFSIZE && 28 <= prevlength && prevlength + Bytes(d) <= EC_BUFSIZE
    requires Word(f, ETH_HEADERSIZE) as int + Bytes(d) < 0x1_0000 && |d.data| < 0x800
    ensures var g := Added(f, prevlength, d, more);
            && Word(g, ETH_HEADERSIZE) as int == Word(f, ETH_HEADERSIZE) as int + Bytes(d)
            && g[..ETH_HEADERSIZE] == f[..ETH_HEADERSIZE]
            && Sits(g, prevlength, d, more)
  {
    var elength: nat := Word(f, ETH_HEADERSIZE) as int + Bytes(d);
    var f1 := Put(f, ETH_HEADERSIZE, [Lo(elength), Hi(elength)]);
    var dlength := Followed(Word(f1, 22) as int);
    var f2 := Put(f1, 22, [Lo(dlength), Hi(dlength)]);
    var g := Added(f, prevlength, d, more);
    SitsPlaced(f2, prevlength, d, more);
    hide Sits;
    hide Placed;
    hide Followed;
    assert g[..16] == g[..prevlength][..16] == f2[..16] == f1[..16];
    LengthFields(f, g, elength);
  }

  /** Adding keeps the datagrams that lie in the frame, and marks the first one. */
  lemma {:induction false} AddedKeeps(f: seq<byte>, prevlength: nat, d: Datagram, more: bool,
                                      p: nat, e: Datagram, follows: bool)
    requires |f| == EC_BUFSIZE && prevlength + Bytes(d) <= EC_BUFSIZE
    requires Sits(f, p, e, follows) && p + Bytes(e) <= prevlength && (p == 16 || p >= 28)
    ensures Sits(Added(f, prevlength, d, more), p, e, follows || p == 16)
  {
    hide Sits;
    hide Put;
    var elength: nat := Word(f, ETH_HEADERSIZE) as int + Bytes(d);
    var f1 := Put(f, ETH_HEADERSIZE, [Lo(elength), Hi(elength)]);
    var dlength := Followed(Word(f1, 22) as int);
    var f2 := Put(f1, 22, [Lo(dlength), Hi(dlength)]);
    SitsElsewhere(f, ETH_HEADERSIZE, [Lo(elength), Hi(elength)], p, e, follows);
    if p == 16 {
      FollowBitSet(f1, p, e, follows);
    } else {
      SitsElsewhere(f1, 22, [Lo(dlength), Hi(dlength)], p, e, follows);
    }
    var now := follows || p == 16;
    assert Sits(f2, p, e, now);
    var g1 := Put(f2, prevlength, Header(d, more));
    var g2 := Put(g1, prevlength + 10, d.data);
    SitsElsewhere(f2, prevlength, Header(d, more), p, e, now);
    SitsElsewhere(g1, prevlength + 10, d.data, p, e, now);
    SitsElsewhere(g2, prevlength + 10 + |d.data|, [Lo(d.wkc), Hi(d.wkc)], p, e, now);
  }

  lemma {:induction false} AddedHolds(
    f: seq<byte>, prevlength: nat, d: Datagram, more: bool, ds: seq<Datagram>, m: bool)
    requires |ds| > 0 && FrameHolds(f, prevlength, ds, m) && (|ds| == 1 || m) && prevlength + Bytes(d) <= EC_BUFSIZE
    ensures FrameHolds(Added(f, prevlength, d, more), prevlength + Bytes(d), ds + [d], more)
    ensures Added(f, prevlength, d, more)[..ETH_HEADERSIZE] == f[..ETH_HEADERSIZE]
  {
    hide Sits;
    hide Added;
    hide Word;
    hide Pos;
    var es := ds + [d];
    var g := Added(f, prevlength, d, more);
    ChainLength(f, prevlength, ds, m);
    AddedLength(f, prevlength, d, more);
    PosPrefix(ds, d, |ds|);
    PosNext(es, |ds|);
    forall i | 0 <= i < |ds| ensures Sits(g, Pos(es, i), ds[i], true) {
      AddedKeepsAt(f, prevlength, d, more, ds, m, i);
    }
    hide Bytes;
    assert forall i :: 0 <= i < |ds| ==> es[i] == ds[i];
  }

  lemma {:induction false} AddedKeepsAt(
    f: seq<byte>, prevlength: nat, d: Datagram, more: bool, ds: seq<Datagram>, m: bool, i: nat)
    requires i < |ds| && FrameHolds(f, prevlength, ds, m) && (|ds| == 1 || m) && prevlength + Bytes(d) <= EC_BUFSIZE
    ensures Sits(Added(f, prevlength, d, more), Pos(ds + [d], i), ds[i], true)
  {
    hide Sits;
    hide Added;
    hide Word;
    PosPrefix(ds, d, i);
    PosGrows(ds, 0, i);
    PosGrows(ds, i, |ds|);
    assert Pos(ds, 0) == 16;
    hide Pos;
    var follows := i < |ds| - 1 || m;
    assert Sits(f, Pos(ds, i), ds[i], follows);
    AddedKeeps(f, prevlength, d, more, Pos(ds, i), ds[i], follows);
  }

  /** Adds a datagram to a frame. The header of the first datagram is marked as followed, and
      that of the new one if the caller says so: a chain is whole only if every datagram but the
      last was added with `more`. Returns the frame's length, and where the data of the new
      datagram will be in the received frame. */
  method AddDatagram(frame: array<byte>, prevlength: nat, com: byte, idx: byte, more: bool, ADP: uint16, ADO: uint16,
                     data: seq<byte>, ghost ds: seq<Datagram>, ghost m: bool)
      returns (txbuflength: nat, offset: nat)
    requires |ds| > 0 && FrameHolds(frame[..], prevlength, ds, m) && (|ds| == 1 || m)
    requires prevlength + 12 + |data| <= EC_BUFSIZE
    modifies frame
    ensures FrameHolds(frame[..], txbuflength, ds + [NewDatagram(com, idx, ADP, ADO, data)], more)
    ensures frame[..ETH_HEADERSIZE] == old(frame[..ETH_HEADERSIZE])
    ensures txbuflength == prevlength + 12 + |data|
    ensures offset + ETH_HEADERSIZE == Pos(ds + [NewDatagram(com, idx, ADP, ADO, data)], |ds|) + 10
  {
    hide FrameHolds;
    hide Placed;
    hide Put;
    hide OnWire;
    ghost var d := NewDatagram(com, idx, ADP, ADO, data);
    ChainLength(frame[..], prevlength, ds, m);
    AddedHolds(frame[..], prevlength, d, more, ds, m);
    PosPrefix(ds, d, |ds|);
    var elength: nat := frame[14] as int + 0x100 * (frame[15] as int) + EC_HEADERSIZE + |data|;
    Write(frame, ETH_HEADERSIZE, [Lo(elength), Hi(elength)]);
    var dlength: nat := frame[22] as int + 0x100 * (frame[23] as int);
    if dlength < EC_DATAGRAMFOLLOWS {
      dlength := dlength + EC_DATAGRAMFOLLOWS;
    }
    Write(frame, 22, [Lo(dlength), Hi(dlength)]);
    PlaceDatagram(frame, prevlength, com, idx, more, ADP, ADO, data);
    txbuflength := prevlength + EC_HEADERSIZE - EC_ELENGTHSIZE + EC_WKCSIZE + |data|;
    offset := prevlength + EC_HEADERSIZE - EC_ELENGTHSIZE - ETH_HEADERSIZE;
  }

  lemma {:induction false} ChainLength(f: seq<byte>, length: nat, ds: seq<Datagram>, m: bool)
    requires |ds| > 0 && FrameHolds(f, length, ds, m)
    ensures length == Pos(ds, |ds|) >= 28 && |f| == EC_BUFSIZE
  {
    hide Sits;
    hide Word;
    PosGrows(ds, 0, |ds|);
  }
}
