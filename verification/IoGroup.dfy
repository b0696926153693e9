/** The process image of group 0: all outputs, then all inputs, then the mailbox status bytes
    (ec_config.c, `ecx_main_config_map_group`). Slave lists are indexed by slave number; index
    0 is the master and maps nothing. */
module IoGroup {
  import opened EcTypes
  import opened IoSegments
  import opened IoMapping

  /** The cursor behind a slave; without packing, the next slave starts at a byte boundary. */
  function CursorBehind(c: nat, bits: nat, packed: bool): nat {
    if bits == 0 then c
    else if packed then DataEnd(c, bits)
    else 8 * ((DataEnd(c, bits) + 7) / 8)
  }

  /** The cursor once the slaves before number `n` are mapped, starting from bit `c`. */
  function CursorAt(slaves: seq<IoSlave>, dir: Direction, packed: bool, c: nat, n: nat): nat
    requires 1 <= n <= |slaves|
  {
    if n == 1 then c else CursorBehind(CursorAt(slaves, dir, packed, c, n - 1), Bits(slaves[n - 1], dir), packed)
  }

  /** The segments once the slaves before number `n` are mapped. */
  function PackerAt(slaves: seq<IoSlave>, dir: Direction, packed: bool, c: nat, p: Packer, n: nat): (r: Packer)
    requires 1 <= n <= |slaves| && 0 < p.max <= EC_MAXLRWDATA
    ensures 0 < r.max <= EC_MAXLRWDATA
  {
    if n == 1 then p
    else
      var q := PackerAt(slaves, dir, packed, c, p, n - 1);
      if Bits(slaves[n - 1], dir) == 0 then q
      else AddImage(q, Grown(slaves, dir, packed, c, n - 1))
  }

  /** Bytes that slave `n` adds to the image. */
  function Grown(slaves: seq<IoSlave>, dir: Direction, packed: bool, c: nat, n: nat): nat
    requires 1 <= n < |slaves|
  {
    var a, b := CursorAt(slaves, dir, packed, c, n), CursorAt(slaves, dir, packed, c, n + 1);
    if b / 8 >= a / 8 then b / 8 - a / 8 else 0
  }

  lemma {:induction false} CursorMoves(slaves: seq<IoSlave>, dir: Direction, packed: bool, c: nat, n: nat)
    requires 1 <= n < |slaves|
    ensures CursorAt(slaves, dir, packed, c, n) <= CursorAt(slaves, dir, packed, c, n + 1)
    ensures Bits(slaves[n], dir) > 0 ==>
      && CursorAt(slaves, dir, packed, c, n) <= DataStart(CursorAt(slaves, dir, packed, c, n), Bits(slaves[n], dir))
      && DataEnd(CursorAt(slaves, dir, packed, c, n), Bits(slaves[n], dir)) <= CursorAt(slaves, dir, packed, c, n + 1)
  {
  }

  lemma {:induction false} CursorMonotone(slaves: seq<IoSlave>, dir: Direction, packed: bool, c: nat, m: nat, n: nat)
    requires 1 <= m <= n <= |slaves|
    ensures CursorAt(slaves, dir, packed, c, m) <= CursorAt(slaves, dir, packed, c, n)
    decreases n - m
  {
    if m < n {
      CursorMonotone(slaves, dir, packed, c, m, n - 1);
      CursorMoves(slaves, dir, packed, c, n - 1);
    }
  }

  // The bits of slave `n`.
  function StartBit(slaves: seq<IoSlave>, dir: Direction, packed: bool, c: nat, n: nat): nat
    requires 1 <= n < |slaves|
  {
    DataStart(CursorAt(slaves, dir, packed, c, n), Bits(slaves[n], dir))
  }

  function EndBit(slaves: seq<IoSlave>, dir: Direction, packed: bool, c: nat, n: nat): nat
    requires 1 <= n < |slaves|
  {
    DataEnd(CursorAt(slaves, dir, packed, c, n), Bits(slaves[n], dir))
  }

  /** Across all slaves, packed or not, the data of different slaves do not share a bit, and
      lie in the order of the slaves, between where the image began and where it ends. */
  lemma {:induction false} DataInOrder(slaves: seq<IoSlave>, dir: Direction, packed: bool, c: nat, m: nat, n: nat)
    requires 1 <= m < n < |slaves| && Bits(slaves[m], dir) > 0 && Bits(slaves[n], dir) > 0
    ensures c <= StartBit(slaves, dir, packed, c, m) < EndBit(slaves, dir, packed, c, m)
              <= StartBit(slaves, dir, packed, c, n) < EndBit(slaves, dir, packed, c, n)
              <= CursorAt(slaves, dir, packed, c, |slaves|)
  {
    CursorMonotone(slaves, dir, packed, c, 1, m);
    CursorMoves(slaves, dir, packed, c, m);
    CursorMonotone(slaves, dir, packed, c, m + 1, n);
    CursorMoves(slaves, dir, packed, c, n);
    CursorMonotone(slaves, dir, packed, c, n + 1, |slaves|);
  }

  /** The packer has seen every byte up to the cursor. */
  lemma {:induction false} PackerSeesImage(
    slaves: seq<IoSlave>, dir: Direction, packed: bool, c: nat, p: Packer, n: nat)
    requires 1 <= n <= |slaves| && Fits(p) && Total(p) == c / 8
    ensures var q := PackerAt(slaves, dir, packed, c, p, n);
            Fits(q) && Total(q) == CursorAt(slaves, dir, packed, c, n) / 8 && p.closed <= q.closed
  {
    if n > 1 {
      PackerSeesImage(slaves, dir, packed, c, p, n - 1);
      CursorMoves(slaves, dir, packed, c, n - 1);
      hide Fits;
      hide AddImage;
      hide Total;
      AddImageKeeps(PackerAt(slaves, dir, packed, c, p, n - 1), Grown(slaves, dir, packed, c, n - 1));
    }
  }

  /** The last byte of packed bits is filled up. */
  function Pad(p: Packer, c: nat): Packer {
    if c % 8 == 0 then p else AddPadding(p)
  }

  // The packer as the code keeps it: an array and four counters

  /** `IOsegment` and the counters stand for the packer `p`. */
  ghost predicate Holds(segments: seq<nat>, current: nat, size: nat, max: nat, wkc: nat, p: Packer) {
    && |segments| == EC_MAXIOSEGMENTS
    && current == |p.closed| <= EC_MAXIOSEGMENTS && segments[..current] == p.closed
    && size == p.open && max == p.max && wkc == p.wkc
  }

  /** Adds the image of one slave; the array of segments must not run out. */
  method PackImage(IOsegment: array<nat>, currentsegment: nat, segmentsize: nat, segmentmaxsize: nat, wkc: nat,
                   diff: nat, ghost p: Packer)
      returns (current: nat, size: nat, max: nat, count: nat)
    requires Holds(IOsegment[..], currentsegment, segmentsize, segmentmaxsize, wkc, p)
    requires 0 < p.max <= EC_MAXLRWDATA && |AddImage(p, diff).closed| < EC_MAXIOSEGMENTS
    modifies IOsegment
    ensures Holds(IOsegment[..], current, size, max, count, AddImage(p, diff))
  {
    current, size, max, count := currentsegment, segmentsize, segmentmaxsize, wkc;
    ghost var q := p;
    AddImageGrows(p, diff);
    if size + diff > max && diff <= max && current < EC_MAXIOSEGMENTS {
      IOsegment[current] := size;
      current := current + 1;
      size := 0;
      max := EC_MAXLRWDATA;
      q := Close(p);
    }
    size := size + diff;
    q := q.(open := q.open + diff);
    ghost var whole := Split(q);
    SplitExtends(q);
    while size > max && current < EC_MAXIOSEGMENTS
      invariant 0 < q.max <= EC_MAXLRWDATA && Split(q) == whole && |q.closed| <= |whole.closed|
      invariant Holds(IOsegment[..], current, size, max, count, q)
      decreases size
    {
      SplitExtends(Packer(q.closed + [q.max], q.open - q.max, EC_MAXLRWDATA, q.wkc + 1));
      IOsegment[current] := max;
      current := current + 1;
      size := size - max;
      count := count + 1;
      max := EC_MAXLRWDATA;
      q := Packer(q.closed + [q.max], q.open - q.max, EC_MAXLRWDATA, q.wkc + 1);
    }
    if size > 0 && diff > 0 {
      count := count + 1;
    }
  }

  lemma {:induction false} AddImageGrows(p: Packer, diff: nat)
    requires 0 < p.max <= EC_MAXLRWDATA
    ensures |p.closed| <= |AddImage(p, diff).closed|
    ensures p.open + diff > p.max && diff <= p.max ==> |p.closed| + 1 <= |AddImage(p, diff).closed|
  {
    var p1 := if p.open + diff > p.max && diff <= p.max then Close(p) else p;
    SplitExtends(p1.(open := p1.open + diff));
  }

  // Mapping one direction of all slaves

  ghost predicate AllMappable(slaves: seq<IoSlave>, dir: Direction) {
    forall k :: 1 <= k < |slaves| && Bits(slaves[k], dir) > 0 ==>
      Ready(slaves[k], dir) && Mappable(slaves[k], dir)
  }

  /** The record of slave `k` when its direction is mapped. */
  ghost function MappedAt(slaves: seq<IoSlave>, dir: Direction, packed: bool, c: nat, k: nat): IoSlave
    requires 1 <= k < |slaves| && AllMappable(slaves, dir)
  {
    if Bits(slaves[k], dir) == 0 then slaves[k]
    else Mapped(slaves[k], dir, CursorAt(slaves, dir, packed, c, k))
  }

  /** The slave list once the slaves before number `n` are mapped. */
  ghost function DirectionList(slaves: seq<IoSlave>, dir: Direction, packed: bool, c: nat, n: nat): (r: seq<IoSlave>)
    requires 1 <= n <= |slaves| && AllMappable(slaves, dir)
    ensures |r| == |slaves| && r[0] == slaves[0]
    ensures forall k :: n <= k < |r| ==> r[k] == slaves[k]
  {
    if n == 1 then slaves
    else DirectionList(slaves, dir, packed, c, n - 1)[n - 1 := MappedAt(slaves, dir, packed, c, n - 1)]
  }

  lemma {:induction false} DirectionListAt(slaves: seq<IoSlave>, dir: Direction, packed: bool, c: nat, n: nat, k: nat)
    requires 1 <= k < n <= |slaves| && AllMappable(slaves, dir)
    ensures DirectionList(slaves, dir, packed, c, n)[k] == MappedAt(slaves, dir, packed, c, k)
  {
    hide MappedAt;
    if k < n - 1 {
      DirectionListAt(slaves, dir, packed, c, n - 1, k);
    }
  }

  lemma {:induction false} PackerGrows(
    slaves: seq<IoSlave>, dir: Direction, packed: bool, c: nat, p: Packer, m: nat, n: nat)
    requires 1 <= m <= n <= |slaves| && 0 < p.max <= EC_MAXLRWDATA
    ensures |PackerAt(slaves, dir, packed, c, p, m).closed| <= |PackerAt(slaves, dir, packed, c, p, n).closed|
    decreases n - m
  {
    hide AddImage;
    hide Grown;
    if m < n {
      PackerGrows(slaves, dir, packed, c, p, m, n - 1);
      AddImageGrows(PackerAt(slaves, dir, packed, c, p, n - 1), Grown(slaves, dir, packed, c, n - 1));
    }
  }

  /** Maps one slave and brings the cursor to where the next one may start. */
  method MapSlave(s: IoSlave, dir: Direction, packed: bool, logAddr0: nat, bitPos0: nat)
      returns (s': IoSlave, logAddr: nat, bitPos: nat)
    requires Ready(s, dir) && Mappable(s, dir) && Bits(s, dir) > 0 && bitPos0 < 8
    ensures s' == Mapped(s, dir, Cursor(logAddr0, bitPos0))
    ensures bitPos < 8 && Cursor(logAddr, bitPos) == CursorBehind(Cursor(logAddr0, bitPos0), Bits(s, dir), packed)
  {
    hide Mapped;
    hide DataEnd;
    hide Ready;
    hide Mappable;
    s', logAddr, bitPos := CreateMappings(s, dir, logAddr0, bitPos0);
    if !packed {
      // byte alignment when the data end in the middle of a byte
      if bitPos > 0 {
        logAddr := logAddr + 1;
        bitPos := 0;
      }
    }
  }

  /** Maps one direction of all slaves; the byte addresses of the cursor tell how much each
      slave adds to the segments. */
  method MapDirection(slavelist: array<IoSlave>, IOsegment: array<nat>, dir: Direction, packed: bool, logAddr0: nat,
                      current0: nat, size0: nat, max0: nat, wkc0: nat, ghost p: Packer)
      returns (logAddr: nat, bitPos: nat, current: nat, size: nat, max: nat, wkc: nat)
    requires slavelist.Length >= 1 && AllMappable(slavelist[..], dir)
    requires IOsegment as object != slavelist
    requires Holds(IOsegment[..], current0, size0, max0, wkc0, p) && 0 < p.max <= EC_MAXLRWDATA
    requires |PackerAt(slavelist[..], dir, packed, 8 * logAddr0, p, slavelist.Length).closed| < EC_MAXIOSEGMENTS
    modifies slavelist, IOsegment
    ensures slavelist[..] == DirectionList(old(slavelist[..]), dir, packed, 8 * logAddr0, slavelist.Length)
    ensures bitPos < 8
    ensures Cursor(logAddr, bitPos) == CursorAt(old(slavelist[..]), dir, packed, 8 * logAddr0, slavelist.Length)
    ensures Holds(IOsegment[..], current, size, max, wkc,
                  PackerAt(old(slavelist[..]), dir, packed, 8 * logAddr0, p, slavelist.Length))
  {
    hide Mapped;
    hide Ready;
    hide Mappable;
    hide AddImage;
    hide CursorBehind;
    hide Holds;
    hide Grown;
    ghost var start := slavelist[..];
    ghost var c := 8 * logAddr0;
    assert CursorAt(start, dir, packed, c, 1) == c && PackerAt(start, dir, packed, c, p, 1) == p;
    hide CursorAt;
    hide PackerAt;
    assert DirectionList(start, dir, packed, c, 1) == start;
    hide DirectionList;
    logAddr, bitPos := logAddr0, 0;
    current, size, max, wkc := current0, size0, max0, wkc0;
    var oLogAddr := logAddr;
    for slave := 1 to slavelist.Length
      invariant bitPos < 8 && Cursor(logAddr, bitPos) == CursorAt(start, dir, packed, c, slave)
      invariant oLogAddr == logAddr
      invariant slavelist[..] == DirectionList(start, dir, packed, c, slave)
      invariant Holds(IOsegment[..], current, size, max, wkc, PackerAt(start, dir, packed, c, p, slave))
    {
      PackerGrows(start, dir, packed, c, p, slave + 1, slavelist.Length);
      assert slavelist[slave] == start[slave];
      if Bits(slavelist[slave], dir) > 0 {
        var s;
        s, logAddr, bitPos := MapSlave(slavelist[slave], dir, packed, logAddr, bitPos);
        slavelist[slave] := s;
        SlaveMapped(start, dir, packed, c, p, slave);
        var diff := logAddr - oLogAddr;
        oLogAddr := logAddr;
        current, size, max, wkc :=
          PackImage(IOsegment, current, size, max, wkc, diff, PackerAt(start, dir, packed, c, p, slave));
      } else {
        NothingMapped(start, dir, packed, c, p, slave);
      }
    }
  }

  lemma {:induction false} SlaveMapped(slaves: seq<IoSlave>, dir: Direction, packed: bool, c: nat, p: Packer, n: nat)
    requires 1 <= n < |slaves| && Bits(slaves[n], dir) > 0 && 0 < p.max <= EC_MAXLRWDATA && AllMappable(slaves, dir)
    ensures DirectionList(slaves, dir, packed, c, n + 1)
            == DirectionList(slaves, dir, packed, c, n)
                 [n := Mapped(slaves[n], dir, CursorAt(slaves, dir, packed, c, n))]
    ensures var a, b := CursorAt(slaves, dir, packed, c, n), CursorAt(slaves, dir, packed, c, n + 1);
            b == CursorBehind(a, Bits(slaves[n], dir), packed) && a <= b
              && Grown(slaves, dir, packed, c, n) == b / 8 - a / 8
    ensures PackerAt(slaves, dir, packed, c, p, n + 1)
            == AddImage(PackerAt(slaves, dir, packed, c, p, n), Grown(slaves, dir, packed, c, n))
  {
    CursorMoves(slaves, dir, packed, c, n);
  }

  lemma {:induction false} NothingMapped(slaves: seq<IoSlave>, dir: Direction, packed: bool, c: nat, p: Packer, n: nat)
    requires 1 <= n < |slaves| && Bits(slaves[n], dir) == 0 && 0 < p.max <= EC_MAXLRWDATA && AllMappable(slaves, dir)
    ensures DirectionList(slaves, dir, packed, c, n + 1) == DirectionList(slaves, dir, packed, c, n)
    ensures CursorAt(slaves, dir, packed, c, n + 1) == CursorAt(slaves, dir, packed, c, n)
    ensures PackerAt(slaves, dir, packed, c, p, n + 1) == PackerAt(slaves, dir, packed, c, p, n)
  {
  }

  /** Fills up the last byte of packed bits. The limit it leaves matters to the outputs only. */
  method PadImage(
    IOsegment: array<nat>, dir: Direction, current0: nat, size0: nat, max0: nat, wkc0: nat, ghost p: Packer)
      returns (current: nat, size: nat, max: nat, wkc: nat)
    requires Holds(IOsegment[..], current0, size0, max0, wkc0, p) && |AddPadding(p).closed| < EC_MAXIOSEGMENTS
    modifies IOsegment
    ensures Holds(IOsegment[..], current, size, if dir.Outputs? then max else AddPadding(p).max, wkc, AddPadding(p))
  {
    current, size, max, wkc := current0, size0, max0, wkc0;
    if size + 1 > max && current < EC_MAXIOSEGMENTS {
      IOsegment[current] := size;
      current := current + 1;
      size := 0;
      wkc := wkc + 1;
      if dir.Outputs? {
        max := EC_MAXLRWDATA;
      }
    }
    size := size + 1;
  }

  // Mailbox status bytes

  const ECT_REG_SM1STAT: nat := 0x080d

  predicate HasStatus(s: IoSlave) {
    s.mbx_l > 0 && s.FMMUunused < EC_MAXFMMU
  }

  /** A slave with a mailbox and an FMMU left gets a byte for the state of its mailbox. */
  function WithStatus(s: IoSlave, logAddr: nat): IoSlave
    requires |s.FMMU| == EC_MAXFMMU
  {
    if HasStatus(s) then
      s.(FMMU := s.FMMU[s.FMMUunused := Fmmu(logAddr, 1, 0, 7, ECT_REG_SM1STAT, 1, true)],
         FMMUunused := s.FMMUunused + 1, mbxstatus := Some(logAddr))
    else s
  }

  /** The slaves before number `n` that have a status byte. */
  function StatusSlaves(slaves: seq<IoSlave>, n: nat): (r: seq<nat>)
    requires 1 <= n <= |slaves|
    ensures |r| < n
  {
    if n == 1 then []
    else StatusSlaves(slaves, n - 1) + (if HasStatus(slaves[n - 1]) then [n - 1] else [])
  }

  /** Status bytes of slaves without inputs that the expected working counter adds. */
  function StatusWkc(slaves: seq<IoSlave>, n: nat): nat
    requires 1 <= n <= |slaves|
  {
    if n == 1 then 0
    else StatusWkc(slaves, n - 1) + (if HasStatus(slaves[n - 1]) && slaves[n - 1].Ibytes == 0 then 1 else 0)
  }

  function StatusPacker(slaves: seq<IoSlave>, p: Packer, n: nat): Packer
    requires 1 <= n <= |slaves|
  {
    if n == 1 then p
    else AddStatus(StatusPacker(slaves, p, n - 1), if HasStatus(slaves[n - 1]) then 1 else 0)
  }

  /** The slave list once the slaves before number `n` have their status byte. */
  function StatusList(slaves: seq<IoSlave>, logAddr: nat, n: nat): (r: seq<IoSlave>)
    requires 1 <= n <= |slaves| && forall k :: 1 <= k < |slaves| ==> |slaves[k].FMMU| == EC_MAXFMMU
    ensures |r| == |slaves| && r[0] == slaves[0]
    ensures forall k :: n <= k < |r| ==> r[k] == slaves[k]
  {
    if n == 1 then slaves
    else StatusList(slaves, logAddr, n - 1)
           [n - 1 := WithStatus(slaves[n - 1], logAddr + |StatusSlaves(slaves, n - 1)|)]
  }

  lemma {:induction false} StatusPackerGrows(slaves: seq<IoSlave>, p: Packer, m: nat, n: nat)
    requires 1 <= m <= n <= |slaves|
    ensures |StatusPacker(slaves, p, m).closed| <= |StatusPacker(slaves, p, n).closed|
    decreases n - m
  {
    if m < n {
      StatusPackerGrows(slaves, p, m, n - 1);
    }
  }

  lemma {:induction false} StatusSlavesGrow(slaves: seq<IoSlave>, m: nat, n: nat)
    requires 1 <= m <= n <= |slaves|
    ensures |StatusSlaves(slaves, m)| <= |StatusSlaves(slaves, n)|
    decreases n - m
  {
    if m < n {
      StatusSlavesGrow(slaves, m, n - 1);
    }
  }

  lemma {:induction false} StatusStep(slaves: seq<IoSlave>, p: Packer, logAddr: nat, n: nat)
    requires 1 <= n < |slaves| && forall k :: 1 <= k < |slaves| ==> |slaves[k].FMMU| == EC_MAXFMMU
    ensures StatusList(slaves, logAddr, n + 1)
            == StatusList(slaves, logAddr, n)[n := WithStatus(slaves[n], logAddr + |StatusSlaves(slaves, n)|)]
    ensures StatusList(slaves, logAddr, n)[n] == slaves[n]
    ensures var one := HasStatus(slaves[n]);
            && StatusSlaves(slaves, n + 1) == StatusSlaves(slaves, n) + (if one then [n] else [])
            && StatusPacker(slaves, p, n + 1) == AddStatus(StatusPacker(slaves, p, n), if one then 1 else 0)
            && StatusWkc(slaves, n + 1) == StatusWkc(slaves, n) + (if one && slaves[n].Ibytes == 0 then 1 else 0)
  {
  }

  /** The lookup table once `who` is written into it from `length` on. */
  function Spliced(lookup: seq<nat>, length: nat, who: seq<nat>): (r: seq<nat>)
    requires length + |who| <= |lookup|
    ensures |r| == |lookup|
  {
    lookup[..length] + who + lookup[length + |who|..]
  }

  lemma {:induction false} SplicedMore(lookup: seq<nat>, length: nat, who: seq<nat>, n: nat)
    requires length + |who| < |lookup|
    ensures Spliced(lookup, length, who)[length + |who| := n] == Spliced(lookup, length, who + [n])
  {
  }

  /** The numbers are below `n`, and in increasing order. */
  ghost predicate Ascending(who: seq<nat>, n: nat) {
    && (forall i :: 0 <= i < |who| ==> who[i] < n)
    && forall i, j :: 0 <= i < j < |who| ==> who[i] < who[j]
  }

  lemma {:induction false} StatusInOrder(slaves: seq<IoSlave>, n: nat)
    requires 1 <= n <= |slaves|
    ensures Ascending(StatusSlaves(slaves, n), n)
  {
    hide HasStatus;
    if n > 1 {
      StatusInOrder(slaves, n - 1);
      AscendingMore(StatusSlaves(slaves, n - 1), n - 1);
      hide Ascending;
    }
  }

  lemma {:induction false} AscendingMore(who: seq<nat>, n: nat)
    requires Ascending(who, n)
    ensures Ascending(who, n + 1) && Ascending(who + [n], n + 1) && Ascending(who + [], n + 1)
  {
    assert who + [] == who;
  }

  /** Mapping writes the table from its old length on, and sets the length to that of the new image.
      So the table is right if and only if nothing was mapped before, or at least as many status
      bytes were and the same slaves came first. */
  lemma {:induction false} LookupIsRight(lookup: seq<nat>, length: nat, slaves: seq<IoSlave>)
    requires |slaves| >= 1 && length + |StatusSlaves(slaves, |slaves|)| <= |lookup|
    ensures var who := StatusSlaves(slaves, |slaves|);
            Spliced(lookup, length, who)[..|who|] == who
            <==> length == 0 || |who| == 0 || (|who| <= length && lookup[..|who|] == who)
  {
    var who := StatusSlaves(slaves, |slaves|);
    StatusInOrder(slaves, |slaves|);
    hide StatusSlaves;
    var r := Spliced(lookup, length, who);
    if length == 0 || |who| == 0 {
      assert r[..|who|] == who;
    } else if |who| <= length {
      assert r[..|who|] == lookup[..|who|];
    } else {
      assert r[length] == who[0] < who[length];
      assert r[..|who|][length] == r[length];
    }
  }

  /** What mapping status bytes changes, besides the segments. */
  datatype StatusState = StatusState(list: seq<IoSlave>, lookup: seq<nat>, logAddr: nat, length: nat, wkc: nat)

  /** There is room for the FMMUs and for the slaves of the list. */
  ghost predicate StatusFits(s: StatusState) {
    && |s.list| >= 1 && (forall k :: 1 <= k < |s.list| ==> |s.list[k].FMMU| == EC_MAXFMMU)
    && s.length + |StatusSlaves(s.list, |s.list|)| <= |s.lookup|
  }

  /** One slave more. */
  ghost function OneStatus(s: StatusState, n: nat): StatusState
    requires n < |s.list| && |s.list[n].FMMU| == EC_MAXFMMU && (HasStatus(s.list[n]) ==> s.length < |s.lookup|)
  {
    if HasStatus(s.list[n]) then
      StatusState(s.list[n := WithStatus(s.list[n], s.logAddr)], s.lookup[s.length := n], s.logAddr + 1, s.length + 1,
                  s.wkc + (if s.list[n].Ibytes == 0 then 1 else 0))
    else s
  }

  /** The slaves before number `n`, starting from `s`. */
  ghost function StatusUpTo(s: StatusState, n: nat): StatusState
    requires StatusFits(s) && 1 <= n <= |s.list|
  {
    StatusSlavesGrow(s.list, n, |s.list|);
    var who := StatusSlaves(s.list, n);
    StatusState(StatusList(s.list, s.logAddr, n), Spliced(s.lookup, s.length, who), s.logAddr + |who|, s.length + |who|,
                s.wkc + StatusWkc(s.list, n))
  }

  lemma {:induction false} StatusGoesOn(s: StatusState, p: Packer, n: nat)
    requires StatusFits(s) && 1 <= n < |s.list|
    ensures var t := StatusUpTo(s, n);
            && n < |t.list| == |s.list| && t.list[n] == s.list[n] && |t.list[n].FMMU| == EC_MAXFMMU
            && (HasStatus(t.list[n]) ==> t.length < |t.lookup|)
            && StatusUpTo(s, n + 1) == OneStatus(t, n)
            && StatusPacker(s.list, p, n + 1)
               == AddStatus(StatusPacker(s.list, p, n), OneStatus(t, n).logAddr - t.logAddr)
  {
    hide AddStatus;
    StatusStep(s.list, p, s.logAddr, n);
    StatusSlavesGrow(s.list, n + 1, |s.list|);
    if HasStatus(s.list[n]) {
      SplicedMore(s.lookup, s.length, StatusSlaves(s.list, n), n);
    } else {
      var list, who := StatusList(s.list, s.logAddr, n), StatusSlaves(s.list, n);
      assert list[n := list[n]] == list && who + [] == who;
    }
    hide WithStatus;
    hide HasStatus;
    hide StatusList;
    hide StatusSlaves;
    hide StatusPacker;
    hide StatusWkc;
    hide Spliced;
  }

  lemma {:induction false} StatusBegins(s: StatusState, p: Packer)
    requires StatusFits(s)
    ensures StatusUpTo(s, 1) == s && StatusPacker(s.list, p, 1) == p
  {
    assert StatusSlaves(s.list, 1) == [] && StatusList(s.list, s.logAddr, 1) == s.list && StatusWkc(s.list, 1) == 0;
    assert Spliced(s.lookup, s.length, []) == s.lookup;
  }

  /** Maps the status bytes of all slaves; `length0` is the length that the lookup table had. */
  method MapStatus(slavelist: array<IoSlave>, IOsegment: array<nat>, mbxstatuslookup: array<nat>, logAddr0: nat,
                   current0: nat, size0: nat, length0: nat, ghost p: Packer)
      returns (logAddr: nat, current: nat, size: nat, length: nat, wkc: nat)
    requires slavelist.Length >= 1
    requires StatusFits(StatusState(slavelist[..], mbxstatuslookup[..], logAddr0, length0, 0))
    requires IOsegment as object != slavelist && mbxstatuslookup as object != slavelist && mbxstatuslookup != IOsegment
    requires Holds(IOsegment[..], current0, size0, p.max, p.wkc, p)
    requires |StatusPacker(slavelist[..], p, slavelist.Length).closed| < EC_MAXIOSEGMENTS
    modifies slavelist, IOsegment, mbxstatuslookup
    ensures StatusState(slavelist[..], mbxstatuslookup[..], logAddr, length, wkc)
            == StatusUpTo(StatusState(old(slavelist[..]), old(mbxstatuslookup[..]), logAddr0, length0, 0),
              slavelist.Length)
    ensures var q := StatusPacker(old(slavelist[..]), p, slavelist.Length);
            Holds(IOsegment[..], current, size, q.max, q.wkc, q)
  {
    ghost var s := StatusState(slavelist[..], mbxstatuslookup[..], logAddr0, length0, 0);
    StatusBegins(s, p);
    hide *;
    logAddr, current, size, length, wkc := logAddr0, current0, size0, length0, 0;
    for slave := 1 to slavelist.Length
      invariant StatusState(slavelist[..], mbxstatuslookup[..], logAddr, length, wkc) == StatusUpTo(s, slave)
      invariant var q := StatusPacker(s.list, p, slave); Holds(IOsegment[..], current, size, q.max, q.wkc, q)
    {
      StatusPackerGrows(s.list, p, slave + 1, slavelist.Length);
      StatusGoesOn(s, p, slave);
      var oLogAddr := logAddr;
      logAddr, length, wkc := CreateMbxStatus(slavelist, mbxstatuslookup, slave, logAddr, length, wkc);
      current, size := PackStatus(IOsegment, current, size, logAddr - oLogAddr, StatusPacker(s.list, p, slave));
    }
  }

  /** Maps the mailbox status byte of one slave. */
  method CreateMbxStatus(slavelist: array<IoSlave>, mbxstatuslookup: array<nat>, slave: nat,
                         logAddr0: nat, length0: nat, wkc0: nat)
      returns (logAddr: nat, length: nat, wkc: nat)
    requires slave < slavelist.Length && (HasStatus(slavelist[slave]) ==> length0 < mbxstatuslookup.Length)
    requires mbxstatuslookup as object != slavelist && |slavelist[slave].FMMU| == EC_MAXFMMU
    modifies slavelist, mbxstatuslookup
    ensures StatusState(slavelist[..], mbxstatuslookup[..], logAddr, length, wkc)
            == OneStatus(StatusState(old(slavelist[..]), old(mbxstatuslookup[..]), logAddr0, length0, wkc0), slave)
    ensures logAddr >= logAddr0
  {
    logAddr, length, wkc := logAddr0, length0, wkc0;
    var s := slavelist[slave];
    if s.mbx_l > 0 && s.FMMUunused < EC_MAXFMMU {
      var fmmu := BlankFmmu.(LogStart := logAddr, LogStartbit := 0);
      logAddr := logAddr + 1;
      fmmu := fmmu.(LogLength := 1, LogEndbit := 7, PhysStart := ECT_REG_SM1STAT, FMMUtype := 1, FMMUactive := true);
      slavelist[slave] := s.(FMMU := s.FMMU[s.FMMUunused := fmmu], FMMUunused := s.FMMUunused + 1,
                             mbxstatus := Some(fmmu.LogStart));
      mbxstatuslookup[length] := slave;
      length := length + 1;
      if s.Ibytes == 0 {
        wkc := wkc + 1;
      }
    }
  }

  method PackStatus(IOsegment: array<nat>, current0: nat, size0: nat, diff: nat, ghost p: Packer)
      returns (current: nat, size: nat)
    requires Holds(IOsegment[..], current0, size0, p.max, p.wkc, p)
    requires |AddStatus(p, diff).closed| < EC_MAXIOSEGMENTS
    modifies IOsegment
    ensures var q := AddStatus(p, diff); Holds(IOsegment[..], current, size, q.max, q.wkc, q)
  {
    current, size := current0, size0;
    if size + diff > EC_MAXLRWDATA - EC_FIRSTDCDATAGRAM {
      IOsegment[current] := size;
      if current < EC_MAXIOSEGMENTS - 1 {
        current := current + 1;
        size := diff;
      }
    } else {
      size := size + diff;
    }
  }

  // The whole group

  /** What `ecx_config_find_mappings` must have found for a slave: both directions fit its
      sync managers, and it has FMMUs enough for all windows. */
  ghost predicate SlaveFits(s: IoSlave) {
    && Ready(s, Outputs) && Ready(s, Inputs)
    && (s.Obits > 0 ==> Enough(s.SM, Outputs.smtype, s.Obits, 0, 0))
    && (s.Ibits > 0 ==> Enough(s.SM, Inputs.smtype, s.Ibits, 0, 0))
    && s.FMMUunused + OutWindows(s) + (if s.Ibits > 0 then |SlaveWindows(s, Inputs)| else 0) <= EC_MAXFMMU
  }

  function OutWindows(s: IoSlave): nat
    requires |s.SM| == EC_MAXSM
  {
    if s.Obits > 0 then |SlaveWindows(s, Outputs)| else 0
  }

  /** Mapping the outputs of a slave leaves its inputs mappable. */
  lemma {:induction false} OutputsLeaveInputs(s: IoSlave, c: nat)
    requires SlaveFits(s) && s.Obits > 0
    ensures Mappable(s, Outputs)
    ensures var r := Mapped(s, Outputs, c);
            && Ready(r, Inputs) && (s.Ibits > 0 ==> Mappable(r, Inputs))
            && r.Ibits == s.Ibits && r.Obits == s.Obits && r.Ibytes == s.Ibytes && r.mbx_l == s.mbx_l
  {
    hide Supply;
    hide Windows;
    hide SlaveFmmus;
    hide NextOfType;
  }

  ghost predicate GroupFits(slaves: seq<IoSlave>) {
    forall k :: 1 <= k < |slaves| ==> SlaveFits(slaves[k])
  }

  lemma {:induction false} GroupMappable(slaves: seq<IoSlave>, packed: bool)
    requires GroupFits(slaves) && |slaves| >= 1
    ensures AllMappable(slaves, Outputs)
    ensures var mid := DirectionList(slaves, Outputs, packed, 0, |slaves|);
            && AllMappable(mid, Inputs)
            && forall k :: 1 <= k < |slaves| ==> mid[k].Ibits == slaves[k].Ibits && |mid[k].FMMU| == EC_MAXFMMU
                                                 && Ready(mid[k], Inputs)
  {
    hide Ready;
    hide Mappable;
    hide Mapped;
    forall k | 1 <= k < |slaves| && slaves[k].Obits > 0
      ensures Ready(slaves[k], Outputs) && Mappable(slaves[k], Outputs)
    {
      FitsMapped(slaves[k], 0);
    }
    var mid := DirectionList(slaves, Outputs, packed, 0, |slaves|);
    forall k | 1 <= k < |slaves|
      ensures mid[k].Ibits == slaves[k].Ibits && |mid[k].FMMU| == EC_MAXFMMU && Ready(mid[k], Inputs)
      ensures mid[k].Ibits > 0 ==> Mappable(mid[k], Inputs)
    {
      DirectionListAt(slaves, Outputs, packed, 0, |slaves|, k);
      FitsMapped(slaves[k], CursorAt(slaves, Outputs, packed, 0, k));
    }
  }

  lemma {:induction false} FitsMapped(s: IoSlave, c: nat)
    requires SlaveFits(s)
    ensures s.Obits > 0 ==> Ready(s, Outputs) && Mappable(s, Outputs)
    ensures var r := if s.Obits > 0 then Mapped(s, Outputs, c) else s;
            && Ready(r, Inputs) && (r.Ibits > 0 ==> Mappable(r, Inputs))
            && r.Ibits == s.Ibits && |r.FMMU| == EC_MAXFMMU
  {
    if s.Obits > 0 {
      OutputsLeaveInputs(s, c);
      hide Mapped;
    }
  }

  /** Only the bits of the slaves decide where their data lie. */
  lemma {:induction false} BitsDecide(
    a: seq<IoSlave>, b: seq<IoSlave>, dir: Direction, packed: bool, c: nat, p: Packer, n: nat)
    requires 1 <= n <= |a| == |b| && 0 < p.max <= EC_MAXLRWDATA
    requires forall k :: 1 <= k < |a| ==> Bits(a[k], dir) == Bits(b[k], dir)
    ensures CursorAt(a, dir, packed, c, n) == CursorAt(b, dir, packed, c, n)
    ensures PackerAt(a, dir, packed, c, p, n) == PackerAt(b, dir, packed, c, p, n)
  {
    if n > 1 {
      BitsDecide(a, b, dir, packed, c, p, n - 1);
      CursorsDecide(a, b, dir, packed, c, n);
    }
  }

  lemma {:induction false} CursorsDecide(a: seq<IoSlave>, b: seq<IoSlave>, dir: Direction, packed: bool, c: nat, n: nat)
    requires 1 <= n <= |a| == |b|
    requires forall k :: 1 <= k < |a| ==> Bits(a[k], dir) == Bits(b[k], dir)
    ensures CursorAt(a, dir, packed, c, n) == CursorAt(b, dir, packed, c, n)
  {
    if n > 1 {
      CursorsDecide(a, b, dir, packed, c, n - 1);
    }
  }

  function OutEnd(slaves: seq<IoSlave>, packed: bool): nat
    requires |slaves| >= 1
  {
    CursorAt(slaves, Outputs, packed, 0, |slaves|)
  }

  /** Bytes of the output image. */
  function OutBytes(slaves: seq<IoSlave>, packed: bool): nat
    requires |slaves| >= 1
  {
    (OutEnd(slaves, packed) + 7) / 8
  }

  function OutPacker(slaves: seq<IoSlave>, packed: bool): (p: Packer)
    requires |slaves| >= 1
    ensures 0 < p.max <= EC_MAXLRWDATA
  {
    Pad(PackerAt(slaves, Outputs, packed, 0, Empty, |slaves|), OutEnd(slaves, packed))
  }

  function InEnd(slaves: seq<IoSlave>, packed: bool): nat
    requires |slaves| >= 1
  {
    CursorAt(slaves, Inputs, packed, 8 * OutBytes(slaves, packed), |slaves|)
  }

  /** Bytes of the input image. */
  function InBytes(slaves: seq<IoSlave>, packed: bool): (n: nat)
    requires |slaves| >= 1
  {
    CursorMonotone(slaves, Inputs, packed, 8 * OutBytes(slaves, packed), 1, |slaves|);
    (InEnd(slaves, packed) + 7) / 8 - OutBytes(slaves, packed)
  }

  /** The packer of the inputs goes on where that of the outputs stopped. */
  function InPacker(slaves: seq<IoSlave>, packed: bool): Packer
    requires |slaves| >= 1
  {
    Pad(PackerAt(slaves, Inputs, packed, 8 * OutBytes(slaves, packed), OutPacker(slaves, packed).(wkc := 0), |slaves|),
        InEnd(slaves, packed))
  }

  /** The slave list when the outputs are mapped. */
  ghost function OutList(slaves: seq<IoSlave>, packed: bool): (r: seq<IoSlave>)
    requires |slaves| >= 1 && GroupFits(slaves)
    ensures |r| == |slaves| && AllMappable(r, Inputs)
    ensures forall k :: 1 <= k < |r| ==> |r[k].FMMU| == EC_MAXFMMU && r[k].Ibits == slaves[k].Ibits
  {
    GroupMappable(slaves, packed);
    DirectionList(slaves, Outputs, packed, 0, |slaves|)
  }

  /** The slave list when both directions are mapped. */
  ghost function IoList(slaves: seq<IoSlave>, packed: bool): (r: seq<IoSlave>)
    requires |slaves| >= 1 && GroupFits(slaves)
    ensures |r| == |slaves|
    ensures forall k :: 1 <= k < |r| ==> |r[k].FMMU| == EC_MAXFMMU
  {
    InputsKeepFmmus(OutList(slaves, packed), packed, 8 * OutBytes(slaves, packed));
    DirectionList(OutList(slaves, packed), Inputs, packed, 8 * OutBytes(slaves, packed), |slaves|)
  }

  lemma {:induction false} InputsKeepFmmus(mid: seq<IoSlave>, packed: bool, c: nat)
    requires |mid| >= 1 && AllMappable(mid, Inputs) && forall k :: 1 <= k < |mid| ==> |mid[k].FMMU| == EC_MAXFMMU
    ensures forall k :: 1 <= k < |mid| ==> |DirectionList(mid, Inputs, packed, c, |mid|)[k].FMMU| == EC_MAXFMMU
  {
    hide Mapped;
    forall k | 1 <= k < |mid| ensures |DirectionList(mid, Inputs, packed, c, |mid|)[k].FMMU| == EC_MAXFMMU {
      DirectionListAt(mid, Inputs, packed, c, |mid|, k);
      if mid[k].Ibits > 0 {
        MappedFmmus(mid[k], Inputs, CursorAt(mid, Inputs, packed, c, k));
      }
    }
  }

  /** Mapping the data of a slave leaves its mailbox, and which of its inputs are whole bytes. */
  lemma {:induction false} IoKeepsMailbox(slaves: seq<IoSlave>, packed: bool, k: nat)
    requires GroupFits(slaves) && 1 <= k < |slaves|
    ensures var s := IoList(slaves, packed)[k]; s.mbx_l == slaves[k].mbx_l && s.Ibytes == slaves[k].Ibytes
  {
    hide GroupFits;
    hide Ready;
    hide Mappable;
    hide OutBytes;
    hide CursorAt;
    hide Set;
    hide SlaveFmmus;
    GroupMappable(slaves, packed);
    DirectionListAt(slaves, Outputs, packed, 0, |slaves|, k);
    DirectionListAt(OutList(slaves, packed), Inputs, packed, 8 * OutBytes(slaves, packed), |slaves|, k);
    hide DirectionList;
  }

  lemma {:induction false} MappedFmmus(s: IoSlave, dir: Direction, c: nat)
    requires Ready(s, dir) && Mappable(s, dir) && Bits(s, dir) > 0
    ensures |Mapped(s, dir, c).FMMU| == EC_MAXFMMU
  {
  }

  ghost function GroupPacker(slaves: seq<IoSlave>, packed: bool): Packer
    requires |slaves| >= 1 && GroupFits(slaves)
  {
    StatusPacker(IoList(slaves, packed), InPacker(slaves, packed), |slaves|)
  }

  /** The packers of the phases have at most the segments of the last one. */
  lemma {:induction false} PhasesGrow(slaves: seq<IoSlave>, packed: bool)
    requires |slaves| >= 1 && GroupFits(slaves)
    ensures var n := |GroupPacker(slaves, packed).closed|;
            && |InPacker(slaves, packed).closed| <= n
            && |PackerAt(slaves, Inputs, packed, 8 * OutBytes(slaves, packed),
                         OutPacker(slaves, packed).(wkc := 0), |slaves|).closed| <= n
            && |OutPacker(slaves, packed).closed| <= n
            && |PackerAt(slaves, Outputs, packed, 0, Empty, |slaves|).closed| <= n
  {
    hide IoList;
    var p := OutPacker(slaves, packed).(wkc := 0);
    var c := 8 * OutBytes(slaves, packed);
    StatusPackerStarts(IoList(slaves, packed), InPacker(slaves, packed));
    StatusPackerGrows(IoList(slaves, packed), InPacker(slaves, packed), 1, |slaves|);
    PackerStarts(slaves, Inputs, packed, c, p);
    PackerGrows(slaves, Inputs, packed, c, p, 1, |slaves|);
    PadGrows(PackerAt(slaves, Inputs, packed, c, p, |slaves|), InEnd(slaves, packed));
    PadGrows(PackerAt(slaves, Outputs, packed, 0, Empty, |slaves|), OutEnd(slaves, packed));
    hide CursorAt;
    hide PackerAt;
    hide StatusPacker;
    hide Pad;
  }

  lemma {:induction false} PackerStarts(slaves: seq<IoSlave>, dir: Direction, packed: bool, c: nat, p: Packer)
    requires |slaves| >= 1 && 0 < p.max <= EC_MAXLRWDATA
    ensures PackerAt(slaves, dir, packed, c, p, 1) == p
  {
  }

  lemma {:induction false} StatusPackerStarts(slaves: seq<IoSlave>, p: Packer)
    requires |slaves| >= 1
    ensures StatusPacker(slaves, p, 1) == p
  {
  }

  /** The process image of the group: what mapping leaves in the group record. */
  datatype Image = Image(
    Obytes: nat, Ibytes: nat, mbxstatus: seq<nat>, segments: seq<nat>,
    Isegment: nat, Ioffset: nat, outputsWKC: nat, inputsWKC: nat)

  ghost function ImageOf(slaves: seq<IoSlave>, packed: bool): Image
    requires |slaves| >= 1 && GroupFits(slaves)
  {
    var io := IoList(slaves, packed);
    Image(OutBytes(slaves, packed), InBytes(slaves, packed), StatusSlaves(io, |io|),
          Segments(GroupPacker(slaves, packed)),
          |OutPacker(slaves, packed).closed|, OutPacker(slaves, packed).open,
          OutPacker(slaves, packed).wkc, InPacker(slaves, packed).wkc + StatusWkc(io, |io|))
  }

  /** The slave list when everything is mapped. */
  ghost function FinalList(slaves: seq<IoSlave>, packed: bool): (r: seq<IoSlave>)
    requires |slaves| >= 1 && GroupFits(slaves)
    ensures |r| == |slaves|
  {
    StatusList(IoList(slaves, packed), OutBytes(slaves, packed) + InBytes(slaves, packed), |slaves|)
  }

  /** The group record (ec_main.h) of group 0, whose logical addresses start at 0. */
  class Group {
    var Obytes: nat
    var Ibytes: nat
    var mbxstatuslength: nat
    var nsegments: nat
    var Isegment: nat
    var Ioffset: nat
    var outputsWKC: nat
    var inputsWKC: nat
    const IOsegment: array<nat>
    const mbxstatuslookup: array<nat>

    ghost predicate Valid() {
      IOsegment.Length == EC_MAXIOSEGMENTS && IOsegment != mbxstatuslookup
    }

    /** The record holds the image; the lookup table has a contract of its own. */
    ghost predicate Records(image: Image)
      reads this, IOsegment
    {
      && Obytes == image.Obytes && Ibytes == image.Ibytes && mbxstatuslength == |image.mbxstatus|
      && nsegments == |image.segments| <= IOsegment.Length && IOsegment[..nsegments] == image.segments
      && Isegment == image.Isegment && Ioffset == image.Ioffset
      && outputsWKC == image.outputsWKC && inputsWKC == image.inputsWKC
    }

    constructor (maxslave: nat)
      ensures Valid() && mbxstatuslookup.Length == maxslave
      ensures fresh(IOsegment) && fresh(mbxstatuslookup)
    {
      IOsegment := new nat[EC_MAXIOSEGMENTS];
      mbxstatuslookup := new nat[maxslave];
    }

    /** Maps the outputs of all slaves. */
    method MapOutputs(slavelist: array<IoSlave>, packedMode: bool)
        returns (LogAddr: nat, currentsegment: nat, segmentsize: nat, segmentmaxsize: nat)
      requires Valid() && slavelist.Length >= 1 && IOsegment as object != slavelist
      requires GroupFits(slavelist[..])
      requires |OutPacker(slavelist[..], packedMode).closed| < EC_MAXIOSEGMENTS
      modifies this`Obytes, this`Isegment, this`Ioffset, this`outputsWKC, slavelist, IOsegment
      ensures slavelist[..] == OutList(old(slavelist[..]), packedMode)
      ensures var p := OutPacker(old(slavelist[..]), packedMode);
              && Holds(IOsegment[..], currentsegment, segmentsize, segmentmaxsize, outputsWKC, p)
              && Isegment == |p.closed| && Ioffset == p.open
      ensures LogAddr == Obytes == OutBytes(old(slavelist[..]), packedMode)
    {
      hide PackerAt;
      hide CursorAt;
      hide DirectionList;
      hide AddPadding;
      hide Holds;
      hide AllMappable;
      hide GroupFits;
      hide Cursor;
      ghost var slaves := slavelist[..];
      OutListIs(slaves, packedMode);
      hide OutList;
      GroupMappable(slaves, packedMode);
      PadGrows(PackerAt(slaves, Outputs, packedMode, 0, Empty, |slaves|), OutEnd(slaves, packedMode));
      BlankSegments(IOsegment[..]);
      hide Pad;
      var BitPos;
      LogAddr, BitPos, currentsegment, segmentsize, segmentmaxsize, outputsWKC :=
        MapDirection(slavelist, IOsegment, Outputs, packedMode, 0, 0, 0, EC_MAXLRWDATA - EC_FIRSTDCDATAGRAM, 0, Empty);
      OutPhaseEnds(slaves, packedMode, LogAddr, BitPos);
      hide OutPacker;
      hide OutBytes;
      if BitPos > 0 {
        LogAddr := LogAddr + 1;
        BitPos := 0;
        currentsegment, segmentsize, segmentmaxsize, outputsWKC :=
          PadImage(IOsegment, Outputs, currentsegment, segmentsize, segmentmaxsize, outputsWKC,
                   PackerAt(slaves, Outputs, packedMode, 0, Empty, |slaves|));
      }
      Obytes := LogAddr;
      Isegment := currentsegment;
      Ioffset := segmentsize;
      HoldsParts(IOsegment[..], currentsegment, segmentsize, segmentmaxsize, outputsWKC, OutPacker(slaves, packedMode));
    }

    /** Maps the inputs of all slaves behind the outputs. */
    method MapInputs(slavelist: array<IoSlave>, packedMode: bool, LogAddr0: nat,
                     current0: nat, size0: nat, max0: nat, ghost slaves: seq<IoSlave>)
        returns (LogAddr: nat, currentsegment: nat, segmentsize: nat)
      requires Valid() && IOsegment as object != slavelist
      requires |slaves| >= 1 && GroupFits(slaves) && slavelist[..] == OutList(slaves, packedMode)
      requires var p := OutPacker(slaves, packedMode).(wkc := 0);
               Holds(IOsegment[..], current0, size0, max0, 0, p)
      requires LogAddr0 == Obytes == OutBytes(slaves, packedMode)
      requires |InPacker(slaves, packedMode).closed| < EC_MAXIOSEGMENTS
      modifies this`Ibytes, this`inputsWKC, slavelist, IOsegment
      ensures slavelist[..] == IoList(slaves, packedMode)
      ensures var p := InPacker(slaves, packedMode);
              Holds(IOsegment[..], currentsegment, segmentsize, p.max, inputsWKC, p)
      ensures Ibytes == InBytes(slaves, packedMode) && LogAddr == Obytes + Ibytes
    {
      hide PackerAt;
      hide CursorAt;
      hide DirectionList;
      hide AddPadding;
      hide OutPacker;
      hide OutBytes;
      hide OutList;
      hide AllMappable;
      hide GroupFits;
      hide IoList;
      hide InPacker;
      hide InBytes;
      hide Holds;
      hide Cursor;
      ghost var mid := slavelist[..];
      ghost var p := OutPacker(slaves, packedMode).(wkc := 0);
      ghost var q := PackerAt(mid, Inputs, packedMode, 8 * LogAddr0, p, |mid|);
      InputsFollow(slaves, packedMode);
      var BitPos, segmentmaxsize;
      LogAddr, BitPos, currentsegment, segmentsize, segmentmaxsize, inputsWKC :=
        MapDirection(slavelist, IOsegment, Inputs, packedMode, LogAddr0, current0, size0, max0, 0, p);
      HoldsParts(IOsegment[..], currentsegment, segmentsize, segmentmaxsize, inputsWKC, q);
      InPhaseEnds(slaves, packedMode, LogAddr, BitPos);
      if BitPos > 0 {
        LogAddr := LogAddr + 1;
        BitPos := 0;
        currentsegment, segmentsize, segmentmaxsize, inputsWKC :=
          PadImage(IOsegment, Inputs, currentsegment, segmentsize, segmentmaxsize, inputsWKC, q);
      }
      Ibytes := LogAddr - Obytes;
    }

    /** Maps outputs, inputs and mailbox status bytes of all slaves; returns the size of the image. */
    method MapGroup(slavelist: array<IoSlave>, packedMode: bool) returns (size: nat)
      requires Valid() && slavelist.Length >= 2
      requires IOsegment as object != slavelist && mbxstatuslookup as object != slavelist
      requires GroupFits(slavelist[..])
      requires |GroupPacker(slavelist[..], packedMode).closed| < EC_MAXIOSEGMENTS
      requires mbxstatuslength + |ImageOf(slavelist[..], packedMode).mbxstatus| <= mbxstatuslookup.Length
      modifies this, slavelist, IOsegment, mbxstatuslookup
      ensures Records(ImageOf(old(slavelist[..]), packedMode))
      ensures mbxstatuslookup[..] == Spliced(old(mbxstatuslookup[..]), old(mbxstatuslength),
                                             ImageOf(old(slavelist[..]), packedMode).mbxstatus)
      ensures slavelist[..] == FinalList(old(slavelist[..]), packedMode)
      ensures size == Obytes + Ibytes + mbxstatuslength
    {
      hide OutPacker;
      hide OutList;
      hide InPacker;
      hide IoList;
      hide OutBytes;
      hide InBytes;
      hide StatusList;
      hide StatusPacker;
      hide StatusSlaves;
      hide StatusWkc;
      hide GroupFits;
      hide PackerAt;
      hide CursorAt;
      hide Pad;
      hide AddStatus;
      ghost var slaves := slavelist[..];
      PhasesGrow(slaves, packedMode);
      var LogAddr, currentsegment, segmentsize, segmentmaxsize, statuswkc;
      LogAddr, currentsegment, segmentsize, segmentmaxsize := MapOutputs(slavelist, packedMode);
      HoldsParts(IOsegment[..], currentsegment, segmentsize, segmentmaxsize, outputsWKC, OutPacker(slaves, packedMode));
      HoldsZero(IOsegment[..], currentsegment, segmentsize, segmentmaxsize, outputsWKC, OutPacker(slaves, packedMode));
      hide Holds;
      LogAddr, currentsegment, segmentsize :=
        MapInputs(slavelist, packedMode, LogAddr, currentsegment, segmentsize, segmentmaxsize, slaves);
      HoldsParts(IOsegment[..], currentsegment, segmentsize, InPacker(slaves, packedMode).max, inputsWKC,
                 InPacker(slaves, packedMode));
      LogAddr, currentsegment, segmentsize, mbxstatuslength, statuswkc :=
        MapStatus(slavelist, IOsegment, mbxstatuslookup, LogAddr, currentsegment, segmentsize, mbxstatuslength,
                  InPacker(slaves, packedMode));
      ghost var q := GroupPacker(slaves, packedMode);
      LastSegment(IOsegment[..], currentsegment, segmentsize, q);
      inputsWKC := inputsWKC + statuswkc;
      IOsegment[currentsegment] := segmentsize;
      nsegments := currentsegment + 1;
      mbxstatuslength := LogAddr - Obytes - Ibytes;
      size := Obytes + Ibytes + mbxstatuslength;
    }
  }

  lemma {:induction false} OutListIs(slaves: seq<IoSlave>, packed: bool)
    requires |slaves| >= 1 && GroupFits(slaves)
    ensures AllMappable(slaves, Outputs)
      && OutList(slaves, packed) == DirectionList(slaves, Outputs, packed, 0, |slaves|)
  {
    GroupMappable(slaves, packed);
    hide DirectionList;
    hide AllMappable;
    hide GroupFits;
  }

  /** Mapping the inputs starts from the list that mapping the outputs leaves; only the bits of
      the slaves count for cursor and segments. */
  lemma {:induction false} InputsFollow(slaves: seq<IoSlave>, packed: bool)
    requires |slaves| >= 1 && GroupFits(slaves)
    ensures var c, p := 8 * OutBytes(slaves, packed), OutPacker(slaves, packed).(wkc := 0);
            var mid := OutList(slaves, packed);
            && |mid| == |slaves| && AllMappable(mid, Inputs)
            && IoList(slaves, packed) == DirectionList(mid, Inputs, packed, c, |mid|)
            && CursorAt(mid, Inputs, packed, c, |mid|) == CursorAt(slaves, Inputs, packed, c, |slaves|)
            && PackerAt(mid, Inputs, packed, c, p, |mid|) == PackerAt(slaves, Inputs, packed, c, p, |slaves|)
            && |PackerAt(mid, Inputs, packed, c, p, |mid|).closed| <= |InPacker(slaves, packed).closed|
  {
    hide PackerAt;
    hide CursorAt;
    hide DirectionList;
    hide OutList;
    hide OutPacker;
    hide OutBytes;
    hide AllMappable;
    hide GroupFits;
    hide Pad;
    var c, p, mid := 8 * OutBytes(slaves, packed), OutPacker(slaves, packed).(wkc := 0), OutList(slaves, packed);
    BitsDecide(mid, slaves, Inputs, packed, c, p, |mid|);
    PadGrows(PackerAt(slaves, Inputs, packed, c, p, |slaves|), InEnd(slaves, packed));
  }

  /** Whether the last byte of the inputs must be filled up. */
  lemma {:induction false} InPhaseEnds(slaves: seq<IoSlave>, packed: bool, logAddr: nat, bitPos: nat)
    requires |slaves| >= 1 && bitPos < 8
    requires Cursor(logAddr, bitPos) == CursorAt(slaves, Inputs, packed, 8 * OutBytes(slaves, packed), |slaves|)
    ensures OutBytes(slaves, packed) + InBytes(slaves, packed) == if bitPos > 0 then logAddr + 1 else logAddr
    ensures var q := PackerAt(slaves, Inputs, packed, 8 * OutBytes(slaves, packed),
                              OutPacker(slaves, packed).(wkc := 0), |slaves|);
            InPacker(slaves, packed) == if bitPos > 0 then AddPadding(q) else q
  {
    hide PackerAt;
    hide CursorAt;
    hide AddPadding;
    hide OutPacker;
    hide OutBytes;
    hide Cursor;
    CursorMonotone(slaves, Inputs, packed, 8 * OutBytes(slaves, packed), 1, |slaves|);
    CursorStarts(slaves, Inputs, packed, 8 * OutBytes(slaves, packed));
    CursorEnds(logAddr, bitPos);
  }

  lemma {:induction false} CursorEnds(logAddr: nat, bitPos: nat)
    requires bitPos < 8
    ensures var x := Cursor(logAddr, bitPos);
            (x + 7) / 8 == (if bitPos > 0 then logAddr + 1 else logAddr) && (x % 8 == 0 <==> bitPos == 0)
  {
    Eighths(Cursor(logAddr, bitPos), logAddr, bitPos);
    if bitPos > 0 {
      Eighths(Cursor(logAddr, bitPos) + 7, logAddr + 1, bitPos - 1);
    } else {
      Eighths(Cursor(logAddr, bitPos) + 7, logAddr, 7);
    }
  }

  lemma {:induction false} Eighths(x: nat, q: nat, r: nat)
    requires x == 8 * q + r && r < 8
    ensures x / 8 == q && x % 8 == r
  {
  }

  /** Whether the last byte of the outputs must be filled up. */
  lemma {:induction false} OutPhaseEnds(slaves: seq<IoSlave>, packed: bool, logAddr: nat, bitPos: nat)
    requires |slaves| >= 1 && bitPos < 8 && Cursor(logAddr, bitPos) == CursorAt(slaves, Outputs, packed, 0, |slaves|)
    ensures OutBytes(slaves, packed) == if bitPos > 0 then logAddr + 1 else logAddr
    ensures var q := PackerAt(slaves, Outputs, packed, 0, Empty, |slaves|);
            OutPacker(slaves, packed) == if bitPos > 0 then AddPadding(q) else q
  {
    hide PackerAt;
    hide CursorAt;
    hide AddPadding;
    hide Cursor;
    CursorEnds(logAddr, bitPos);
  }

  lemma {:induction false} PadGrows(p: Packer, c: nat)
    ensures |p.closed| <= |Pad(p, c).closed|
  {
  }

  lemma {:induction false} CursorStarts(slaves: seq<IoSlave>, dir: Direction, packed: bool, c: nat)
    requires |slaves| >= 1
    ensures CursorAt(slaves, dir, packed, c, 1) == c
  {
  }

  lemma {:induction false} HoldsZero(segments: seq<nat>, current: nat, size: nat, max: nat, wkc: nat, p: Packer)
    requires Holds(segments, current, size, max, wkc, p)
    ensures Holds(segments, current, size, max, 0, p.(wkc := 0))
  {
  }

  lemma {:induction false} LastSegment(segments: seq<nat>, current: nat, size: nat, p: Packer)
    requires Holds(segments, current, size, p.max, p.wkc, p) && current < EC_MAXIOSEGMENTS
    ensures current == |p.closed| < |segments| && segments[current := size][..current + 1] == Segments(p)
  {
    assert segments[current := size][..current] == segments[..current];
  }

  lemma {:induction false} HoldsParts(segments: seq<nat>, current: nat, size: nat, max: nat, wkc: nat, p: Packer)
    requires Holds(segments, current, size, max, wkc, p)
    ensures current == |p.closed| && size == p.open && max == p.max && wkc == p.wkc
  {
  }

  lemma {:induction false} BlankSegments(segments: seq<nat>)
    requires |segments| == EC_MAXIOSEGMENTS
    ensures Holds(segments, 0, 0, EC_MAXLRWDATA - EC_FIRSTDCDATAGRAM, 0, Empty)
  {
  }
}
