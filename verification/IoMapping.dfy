/** Mapping the process data of one slave into the logical address space (ec_config.c):
    each FMMU window says which bits of the image belong to the slave. */
module IoMapping {
  import opened EcTypes

  const EC_MAXFMMU: nat := 4

  /** SMtype is 0=unused 1=MbxWr 2=MbxRd 3=Outputs 4=Inputs. */
  datatype SyncManager = SyncManager(StartAddr: nat, SMlength: nat, SMtype: nat)

  datatype Fmmu = Fmmu(
    LogStart: nat, LogLength: nat, LogStartbit: nat, LogEndbit: nat,
    PhysStart: nat, FMMUtype: nat, FMMUactive: bool)

  /** Bit address: 8 * LogAddr + BitPos. */
  function Cursor(logAddr: nat, bitPos: nat): nat {
    8 * logAddr + bitPos
  }

  // The first bit of a window, and the one behind its last bit.
  function First(f: Fmmu): nat {
    8 * f.LogStart + f.LogStartbit
  }

  function Last(f: Fmmu): int {
    8 * (f.LogStart + f.LogLength - 1) + f.LogEndbit + 1
  }

  // Which sync managers serve a window

  /** The first sync manager of the type from index `i` on; the last one if there is none. */
  function NextOfType(sm: seq<SyncManager>, smtype: nat, i: nat): (j: nat)
    requires |sm| == EC_MAXSM && i < EC_MAXSM
    ensures i <= j < EC_MAXSM
    ensures j < EC_MAXSM - 1 ==> sm[j].SMtype == smtype
    ensures forall k :: i <= k < j ==> sm[k].SMtype != smtype
    decreases EC_MAXSM - i
  {
    if i < EC_MAXSM - 1 && sm[i].SMtype != smtype then NextOfType(sm, smtype, i + 1) else i
  }

  /** Bytes that the sync managers of the type supply from index `i` on. */
  function Supply(sm: seq<SyncManager>, smtype: nat, i: nat): nat
    requires |sm| == EC_MAXSM && i <= EC_MAXSM
    decreases EC_MAXSM - i
  {
    if i == EC_MAXSM then 0
    else (if sm[i].SMtype == smtype then sm[i].SMlength else 0) + Supply(sm, smtype, i + 1)
  }

  lemma {:induction false} SupplySkips(sm: seq<SyncManager>, smtype: nat, i: nat, j: nat)
    requires |sm| == EC_MAXSM && i <= j <= EC_MAXSM
    requires forall k :: i <= k < j ==> sm[k].SMtype != smtype
    ensures Supply(sm, smtype, i) == Supply(sm, smtype, j)
    decreases j - i
  {
    if i < j {
      SupplySkips(sm, smtype, i + 1, j);
    }
  }

  /** `count` bytes are used and the sync managers from `i` on supply the rest of `bits`. */
  predicate Enough(sm: seq<SyncManager>, smtype: nat, bits: nat, i: nat, count: nat)
    requires |sm| == EC_MAXSM && i <= EC_MAXSM
  {
    8 * (count + Supply(sm, smtype, i)) >= bits
  }

  /** The sync manager at which a search from `i` stops really has the type, if it is needed. */
  lemma {:induction false} NextIsOfType(sm: seq<SyncManager>, smtype: nat, bits: nat, i: nat, count: nat)
    requires |sm| == EC_MAXSM && i < EC_MAXSM
    requires 8 * count < bits && Enough(sm, smtype, bits, i, count)
    ensures var j := NextOfType(sm, smtype, i);
            && sm[j].SMtype == smtype
            && Supply(sm, smtype, i) == sm[j].SMlength + Supply(sm, smtype, j + 1)
  {
    var j := NextOfType(sm, smtype, i);
    SupplySkips(sm, smtype, i, j);
    assert Supply(sm, smtype, EC_MAXSM) == 0;
  }

  /** Extends a run of sync managers that ends with the counted one at `i` as long as bits are
      missing and the next one is adjacent: where it stops, and the bytes counted then. */
  function RunEnd(sm: seq<SyncManager>, smtype: nat, bits: nat, i: nat, count: nat): (r: (nat, nat))
    requires |sm| == EC_MAXSM && i < EC_MAXSM
    ensures i <= r.0 < EC_MAXSM && r.1 >= count
    decreases EC_MAXSM - i
  {
    if 8 * count >= bits || i == EC_MAXSM - 1 then (i, count)
    else
      var j := NextOfType(sm, smtype, i + 1);
      if sm[j].StartAddr > sm[i].StartAddr + sm[i].SMlength then (j, count)
      else RunEnd(sm, smtype, bits, j, count + sm[j].SMlength)
  }

  lemma {:induction false} SupplyStep(sm: seq<SyncManager>, smtype: nat, i: nat)
    requires |sm| == EC_MAXSM && i <= EC_MAXSM
    ensures Supply(sm, smtype, i) ==
            if i == EC_MAXSM then 0
              else (if sm[i].SMtype == smtype then sm[i].SMlength else 0) + Supply(sm, smtype, i + 1)
  {
  }

  lemma {:induction false} RunEndStep(sm: seq<SyncManager>, smtype: nat, bits: nat, i: nat, count: nat)
    requires |sm| == EC_MAXSM && i < EC_MAXSM
    ensures RunEnd(sm, smtype, bits, i, count) ==
            if 8 * count >= bits || i == EC_MAXSM - 1 then (i, count)
            else
              var j := NextOfType(sm, smtype, i + 1);
              if sm[j].StartAddr > sm[i].StartAddr + sm[i].SMlength then (j, count)
              else RunEnd(sm, smtype, bits, j, count + sm[j].SMlength)
  {
    hide NextOfType;
  }

  /** A run ends with enough bytes, or before a sync manager that is still to be counted. */
  lemma {:induction false} RunProgress(sm: seq<SyncManager>, smtype: nat, bits: nat, i: nat, count: nat)
    requires |sm| == EC_MAXSM && i < EC_MAXSM && Enough(sm, smtype, bits, i + 1, count)
    ensures var (e, c) := RunEnd(sm, smtype, bits, i, count);
            && (8 * c >= bits || (e > i && Enough(sm, smtype, bits, e, c)))
            && c <= count + Supply(sm, smtype, i + 1)
    decreases EC_MAXSM - i
  {
    hide NextOfType;
    hide Supply;
    hide RunEnd;
    RunEndStep(sm, smtype, bits, i, count);
    if 8 * count >= bits {
    } else if i == EC_MAXSM - 1 {
      SupplyStep(sm, smtype, EC_MAXSM);
    } else {
      var j := NextOfType(sm, smtype, i + 1);
      NextIsOfType(sm, smtype, bits, i + 1, count);
      SupplySkips(sm, smtype, i + 1, j);
      if sm[j].StartAddr <= sm[i].StartAddr + sm[i].SMlength {
        assert Enough(sm, smtype, bits, j + 1, count + sm[j].SMlength);
        RunProgress(sm, smtype, bits, j, count + sm[j].SMlength);
      }
    }
  }

  // Windows of a slave

  /** One FMMU window: where its run of sync managers starts, and how many bytes it covers. */
  datatype Window = Window(PhysStart: nat, size: nat)

  /** The windows of a byte-oriented slave, from sync manager `i` on, when `count` bytes of
      sync managers have been used and `done` bytes are mapped. */
  function Windows(sm: seq<SyncManager>, smtype: nat, bits: nat, i: nat, count: nat, done: nat): seq<Window>
    requires |sm| == EC_MAXSM && i < EC_MAXSM
    decreases EC_MAXSM - i
  {
    var bytes := (bits + 7) / 8;
    if done >= bytes then []
    else
      var j := NextOfType(sm, smtype, i);
      var (e, c) := RunEnd(sm, smtype, bits, j, count + sm[j].SMlength);
      var size := if c + done > bytes then bytes - done else c;
      [Window(sm[j].StartAddr, size)] +
      (if e > i then Windows(sm, smtype, bits, e, c, done + size) else [])
  }

  function Sizes(w: seq<Window>): nat {
    if w == [] then 0 else w[0].size + Sizes(w[1..])
  }

  lemma {:induction false} WindowsUnfold(
    sm: seq<SyncManager>, smtype: nat, bits: nat, i: nat, count: nat, done: nat)
    requires |sm| == EC_MAXSM && i < EC_MAXSM
    ensures var bytes := (bits + 7) / 8;
            var j := NextOfType(sm, smtype, i);
            var (e, c) := RunEnd(sm, smtype, bits, j, count + sm[j].SMlength);
            var size := if c + done > bytes then bytes - done else c;
            Sizes(Windows(sm, smtype, bits, i, count, done))
            == if done >= bytes then 0
               else size + (if e > i then Sizes(Windows(sm, smtype, bits, e, c, done + size)) else 0)
  {
    hide NextOfType;
    hide RunEnd;
  }

  /** What is mapped after a window: everything if enough is counted, or all that is counted. */
  lemma {:induction false} WindowSize(bits: nat, c: nat, done: nat, count: nat)
    requires done < (bits + 7) / 8 && count <= done && (8 * count >= bits ==> done == (bits + 7) / 8) && count <= c
    ensures var bytes := (bits + 7) / 8;
            var size := if c + done > bytes then bytes - done else c;
            && done + size <= bytes && 8 * count < bits
            && (8 * c >= bits ==> done + size == bytes) && (done + size >= c || done + size == bytes)
  {
  }

  /** Whenever the sync managers supply the bits, the windows cover every byte once. */
  lemma {:induction false} WindowsCoverImage(
    sm: seq<SyncManager>, smtype: nat, bits: nat, i: nat, count: nat, done: nat)
    requires |sm| == EC_MAXSM && i < EC_MAXSM && Enough(sm, smtype, bits, i, count)
    requires done <= (bits + 7) / 8 && (8 * count >= bits ==> done == (bits + 7) / 8)
    requires done >= count || done == (bits + 7) / 8
    ensures done + Sizes(Windows(sm, smtype, bits, i, count, done)) == (bits + 7) / 8
    decreases EC_MAXSM - i
  {
    hide RunEnd;
    hide NextOfType;
    hide Supply;
    var bytes := (bits + 7) / 8;
    WindowsUnfold(sm, smtype, bits, i, count, done);
    hide Windows;
    if done < bytes {
      var j := NextOfType(sm, smtype, i);
      NextIsOfType(sm, smtype, bits, i, count);
      RunProgress(sm, smtype, bits, j, count + sm[j].SMlength);
      var (e, c) := RunEnd(sm, smtype, bits, j, count + sm[j].SMlength);
      var size := if c + done > bytes then bytes - done else c;
      WindowSize(bits, c, done, count);
      hide Enough;
      if e > i {
        WindowsCoverImage(sm, smtype, bits, e, c, done + size);
      }
    }
  }

  datatype IoSlave = IoSlave(
    Obits: nat, Obytes: nat, outputs: Option<nat>, Ostartbit: nat,
    Ibits: nat, Ibytes: nat, inputs: Option<nat>, Istartbit: nat,
    mbx_l: nat, mbxstatus: Option<nat>,
    SM: seq<SyncManager>, FMMU: seq<Fmmu>, FMMUunused: nat)

  /** The two directions differ in the types they look for and set. */
  datatype Direction = Outputs | Inputs {
    const smtype: nat := if Outputs? then 3 else 4
    const fmmutype: nat := if Outputs? then 2 else 1
  }

  function Bits(s: IoSlave, dir: Direction): nat {
    if dir.Outputs? then s.Obits else s.Ibits
  }

  function Bytes(s: IoSlave, dir: Direction): nat {
    if dir.Outputs? then s.Obytes else s.Ibytes
  }

  const BlankFmmu: Fmmu := Fmmu(0, 0, 0, 0, 0, 0, false)

  /** The slave record as `ecx_config_find_mappings` leaves it: a slave of less than 8 bits is
      bit-oriented, and the FMMUs not in use are blank. The 16-bit byte count does not wrap. */
  ghost predicate Ready(s: IoSlave, dir: Direction) {
    && |s.SM| == EC_MAXSM && |s.FMMU| == EC_MAXFMMU && s.FMMUunused <= EC_MAXFMMU
    && Bytes(s, dir) == (if Bits(s, dir) > 7 then (Bits(s, dir) + 7) / 8 else 0)
    && (forall k :: s.FMMUunused <= k < EC_MAXFMMU ==> s.FMMU[k] == BlankFmmu)
    && Supply(s.SM, dir.smtype, 0) < 0x1_0000
    && (forall k :: 0 <= k < EC_MAXSM ==> s.SM[k].StartAddr + s.SM[k].SMlength < 0x1_0000)
  }

  /** The sync managers supply the bits, and there are as many FMMUs as windows. */
  ghost predicate Mappable(s: IoSlave, dir: Direction)
    requires Ready(s, dir)
  {
    && Enough(s.SM, dir.smtype, Bits(s, dir), 0, 0)
    && s.FMMUunused + |SlaveWindows(s, dir)| <= EC_MAXFMMU
  }

  function SlaveWindows(s: IoSlave, dir: Direction): seq<Window>
    requires |s.SM| == EC_MAXSM
  {
    if Bytes(s, dir) == 0 then [Window(s.SM[NextOfType(s.SM, dir.smtype, 0)].StartAddr, 0)]
    else Windows(s.SM, dir.smtype, Bits(s, dir), 0, 0, 0)
  }

  /** Where the data of a slave begins, when the image is filled up to bit `c`. */
  function DataStart(c: nat, bits: nat): nat {
    if bits > 7 then 8 * ((c + 7) / 8) else c
  }

  function DataEnd(c: nat, bits: nat): nat {
    DataStart(c, bits) + (if bits > 7 then 8 * ((bits + 7) / 8) else bits)
  }

  /** The FMMUs of a byte-oriented slave: its windows, one after the other. */
  function ByteFmmus(w: seq<Window>, logAddr: nat, fmmutype: nat): (f: seq<Fmmu>)
    ensures |f| == |w|
  {
    if w == [] then []
    else
      var on := w[0].size > 0;
      [Fmmu(logAddr, w[0].size, 0, 7, w[0].PhysStart, if on then fmmutype else 0, on)]
      + ByteFmmus(w[1..], logAddr + w[0].size, fmmutype)
  }

  /** The FMMU of a bit-oriented slave: one window of up to seven bits in one or two bytes. */
  function BitFmmu(phys: nat, c: nat, bits: nat, fmmutype: nat): Fmmu
    requires bits > 0
  {
    var last := c + bits - 1;
    Fmmu(c / 8, last / 8 - c / 8 + 1, c % 8, last % 8, phys, fmmutype, true)
  }

  /** The FMMUs cover the bits from `start` to `end` in order, without gap or overlap. */
  ghost predicate Tile(f: seq<Fmmu>, start: nat, end: nat) {
    if f == [] then start == end
    else First(f[0]) == start && Last(f[0]) >= start && Tile(f[1..], Last(f[0]), end)
  }

  lemma {:induction false} ByteFmmusTile(w: seq<Window>, logAddr: nat, fmmutype: nat)
    ensures Tile(ByteFmmus(w, logAddr, fmmutype), 8 * logAddr, 8 * (logAddr + Sizes(w)))
  {
    if w != [] {
      ByteFmmusTile(w[1..], logAddr + w[0].size, fmmutype);
      var f := ByteFmmus(w, logAddr, fmmutype);
      assert f[1..] == ByteFmmus(w[1..], logAddr + w[0].size, fmmutype);
    }
  }

  lemma {:induction false} BitFmmuTiles(phys: nat, c: nat, bits: nat, fmmutype: nat)
    requires bits > 0
    ensures Tile([BitFmmu(phys, c, bits, fmmutype)], c, c + bits)
  {
    var f := BitFmmu(phys, c, bits, fmmutype);
    assert First(f) == c && Last(f) == c + bits;
  }

  /** The FMMUs that mapping a slave sets, when the image is filled up to bit `c`. */
  function SlaveFmmus(s: IoSlave, dir: Direction, c: nat): (f: seq<Fmmu>)
    requires |s.SM| == EC_MAXSM && Bits(s, dir) > 0
    ensures |f| == |SlaveWindows(s, dir)|
  {
    if Bytes(s, dir) == 0 then [BitFmmu(SlaveWindows(s, dir)[0].PhysStart, c, Bits(s, dir), dir.fmmutype)]
    else ByteFmmus(SlaveWindows(s, dir), (c + 7) / 8, dir.fmmutype)
  }

  /** The FMMUs of a slave cover exactly the bits, or rounded bytes, that it asked for. */
  lemma {:induction false} SlaveFmmusTile(s: IoSlave, dir: Direction, c: nat)
    requires Ready(s, dir) && Mappable(s, dir) && Bits(s, dir) > 0
    ensures Tile(SlaveFmmus(s, dir, c), DataStart(c, Bits(s, dir)), DataEnd(c, Bits(s, dir)))
  {
    hide Tile;
    hide Windows;
    hide ByteFmmus;
    hide BitFmmu;
    hide Supply;
    hide NextOfType;
    var bits := Bits(s, dir);
    if Bytes(s, dir) == 0 {
      BitFmmuTiles(SlaveWindows(s, dir)[0].PhysStart, c, bits, dir.fmmutype);
    } else {
      WindowsCoverImage(s.SM, dir.smtype, bits, 0, 0, 0);
      ByteFmmusTile(SlaveWindows(s, dir), (c + 7) / 8, dir.fmmutype);
    }
  }

  /** Counts the sync managers of one window: those of the type that are adjacent, from index
      `i` on, until `bits` are covered. */
  method CountRun(sm: seq<SyncManager>, smtype: nat, bits: nat, i: nat, count: nat)
      returns (PhysStart: nat, SMc: nat, ByteCount: nat)
    requires |sm| == EC_MAXSM && i < EC_MAXSM
    ensures PhysStart == sm[NextOfType(sm, smtype, i)].StartAddr
    ensures (SMc, ByteCount) == RunEnd(sm, smtype, bits, NextOfType(sm, smtype, i),
                                       count + sm[NextOfType(sm, smtype, i)].SMlength)
  {
    hide RunEnd;
    hide NextOfType;
    SMc := SearchType(sm, smtype, i);
    PhysStart := sm[SMc].StartAddr;
    var SMlength := sm[SMc].SMlength;
    ByteCount := count + SMlength;
    var BitCount := 8 * count + SMlength * 8;
    var EndAddr := sm[SMc].StartAddr + SMlength;
    ghost var whole := RunEnd(sm, smtype, bits, SMc, ByteCount);
    while BitCount < bits && SMc < EC_MAXSM - 1
      invariant SMc < EC_MAXSM && BitCount == 8 * ByteCount
      invariant EndAddr == sm[SMc].StartAddr + sm[SMc].SMlength
      invariant RunEnd(sm, smtype, bits, SMc, ByteCount) == whole
      decreases EC_MAXSM - SMc
    {
      RunEndUnfold(sm, smtype, bits, SMc, ByteCount);
      SMc := SearchType(sm, smtype, SMc + 1);
      // a gap between the addresses starts another window
      if sm[SMc].StartAddr > EndAddr {
        return;
      }
      SMlength := sm[SMc].SMlength;
      ByteCount := ByteCount + SMlength;
      BitCount := BitCount + SMlength * 8;
      EndAddr := sm[SMc].StartAddr + SMlength;
    }
    RunEndStops(sm, smtype, bits, SMc, ByteCount);
  }

  lemma {:induction false} RunEndStops(sm: seq<SyncManager>, smtype: nat, bits: nat, i: nat, count: nat)
    requires |sm| == EC_MAXSM && i < EC_MAXSM && (8 * count >= bits || i == EC_MAXSM - 1)
    ensures RunEnd(sm, smtype, bits, i, count) == (i, count)
  {
  }

  lemma {:induction false} RunEndUnfold(sm: seq<SyncManager>, smtype: nat, bits: nat, i: nat, count: nat)
    requires |sm| == EC_MAXSM && i < EC_MAXSM - 1 && 8 * count < bits
    ensures var j := NextOfType(sm, smtype, i + 1);
            RunEnd(sm, smtype, bits, i, count)
            == if sm[j].StartAddr > sm[i].StartAddr + sm[i].SMlength then (j, count)
               else RunEnd(sm, smtype, bits, j, count + sm[j].SMlength)
  {
  }

  method SearchType(sm: seq<SyncManager>, smtype: nat, i: nat) returns (SMc: nat)
    requires |sm| == EC_MAXSM && i < EC_MAXSM
    ensures SMc == NextOfType(sm, smtype, i)
  {
    SMc := i;
    while SMc < EC_MAXSM - 1 && sm[SMc].SMtype != smtype
      invariant SMc < EC_MAXSM && NextOfType(sm, smtype, SMc) == NextOfType(sm, smtype, i)
    {
      SMc := SMc + 1;
    }
  }

  /** Places a bit-oriented window at the cursor. */
  method PlaceBits(bits: nat, phys: nat, fmmutype: nat, logAddr0: nat, bitPos0: nat)
      returns (fmmu: Fmmu, logAddr: nat, bitPos: nat)
    requires 0 < bits < 8 && bitPos0 < 8
    ensures bitPos < 8 && Cursor(logAddr, bitPos) == Cursor(logAddr0, bitPos0) + bits
    ensures fmmu == BitFmmu(phys, Cursor(logAddr0, bitPos0), bits, fmmutype)
    ensures 1 <= fmmu.LogLength <= 2
  {
    logAddr, bitPos := logAddr0, bitPos0;
    bitPos := bitPos + bits - 1;
    if bitPos > 7 {
      logAddr := logAddr + 1;
      bitPos := bitPos - 8;
    }
    var size := logAddr - logAddr0 + 1;
    fmmu := Fmmu(logAddr0, size, bitPos0, bitPos, phys, fmmutype, true);
    assert (Cursor(logAddr0, bitPos0) + bits - 1) == 8 * logAddr + bitPos;
    bitPos := bitPos + 1;
    if bitPos > 7 {
      logAddr := logAddr + 1;
      bitPos := bitPos - 8;
    }
  }

  /** Places a byte-oriented window of at most `rest` bytes at the next byte boundary. */
  method PlaceBytes(count: nat, rest: nat, phys: nat, fmmutype: nat, logAddr0: nat, bitPos0: nat)
      returns (fmmu: Fmmu, logAddr: nat, bitPos: nat)
    requires bitPos0 < 8
    ensures var start := (Cursor(logAddr0, bitPos0) + 7) / 8;
            var size := if count > rest then rest else count;
            && bitPos == 0 && logAddr == start + size
            && [fmmu] == ByteFmmus([Window(phys, size)], start, fmmutype)
  {
    logAddr, bitPos := logAddr0, bitPos0;
    if bitPos > 0 {
      logAddr := logAddr + 1;
      bitPos := 0;
    }
    fmmu := BlankFmmu.(PhysStart := phys, LogStart := logAddr, LogStartbit := bitPos);
    bitPos := 7;
    var FMMUsize := count;
    if FMMUsize > rest {
      FMMUsize := rest;
    }
    logAddr := logAddr + FMMUsize;
    fmmu := fmmu.(LogLength := FMMUsize, LogEndbit := bitPos);
    bitPos := 0;
    if FMMUsize > 0 {
      fmmu := fmmu.(FMMUtype := fmmutype, FMMUactive := true);
    }
  }

  lemma {:induction false} WindowsStep(
    sm: seq<SyncManager>, smtype: nat, bits: nat, i: nat, count: nat, done: nat, logAddr: nat, fmmutype: nat)
    requires |sm| == EC_MAXSM && i < EC_MAXSM && done < (bits + 7) / 8
    requires Enough(sm, smtype, bits, i, count)
    requires done >= count
    ensures var bytes := (bits + 7) / 8;
            var j := NextOfType(sm, smtype, i);
            var (e, c) := RunEnd(sm, smtype, bits, j, count + sm[j].SMlength);
            var size := if c > bytes - done then bytes - done else c;
            var rest := Windows(sm, smtype, bits, e, c, done + size);
            && Windows(sm, smtype, bits, i, count, done) == [Window(sm[j].StartAddr, size)] + rest
            && ByteFmmus(Windows(sm, smtype, bits, i, count, done), logAddr, fmmutype)
               == ByteFmmus([Window(sm[j].StartAddr, size)], logAddr, fmmutype)
                  + ByteFmmus(rest, logAddr + size, fmmutype)
            && (done + size == bytes || (e > i && done + size >= c && Enough(sm, smtype, bits, e, c)))
            && c <= count + Supply(sm, smtype, i)
  {
    hide RunEnd;
    hide NextOfType;
    hide Supply;
    hide Windows;
    hide ByteFmmus;
    var bytes := (bits + 7) / 8;
    var j := NextOfType(sm, smtype, i);
    NextIsOfType(sm, smtype, bits, i, count);
    RunProgress(sm, smtype, bits, j, count + sm[j].SMlength);
    var (e, c) := RunEnd(sm, smtype, bits, j, count + sm[j].SMlength);
    var size := if c > bytes - done then bytes - done else c;
    var w := Window(sm[j].StartAddr, size);
    WindowsHead(sm, smtype, bits, i, count, done);
    var rest := Windows(sm, smtype, bits, e, c, done + size);
    if done + size == bytes {
      NoMoreWindows(sm, smtype, bits, e, c, done + size);
    }
    ByteFmmusHead(w, rest, logAddr, fmmutype);
  }

  lemma {:induction false} ByteFmmusHead(w: Window, rest: seq<Window>, logAddr: nat, fmmutype: nat)
    ensures ByteFmmus([w] + rest, logAddr, fmmutype)
            == ByteFmmus([w], logAddr, fmmutype) + ByteFmmus(rest, logAddr + w.size, fmmutype)
  {
    assert ([w] + rest)[1..] == rest;
    assert [w][1..] == [];
  }

  lemma {:induction false} WindowsHead(sm: seq<SyncManager>, smtype: nat, bits: nat, i: nat, count: nat, done: nat)
    requires |sm| == EC_MAXSM && i < EC_MAXSM && done < (bits + 7) / 8
    ensures var bytes := (bits + 7) / 8;
            var j := NextOfType(sm, smtype, i);
            var (e, c) := RunEnd(sm, smtype, bits, j, count + sm[j].SMlength);
            var size := if c > bytes - done then bytes - done else c;
            Windows(sm, smtype, bits, i, count, done) ==
              [Window(sm[j].StartAddr, size)] + (if e > i then Windows(sm, smtype, bits, e, c, done + size) else [])
  {
    hide NextOfType;
    hide RunEnd;
  }

  lemma {:induction false} NoMoreWindows(sm: seq<SyncManager>, smtype: nat, bits: nat, i: nat, count: nat, done: nat)
    requires |sm| == EC_MAXSM && i < EC_MAXSM && done >= (bits + 7) / 8
    ensures Windows(sm, smtype, bits, i, count, done) == []
  {
  }

  /** The slave record with the FMMUs of one direction set, when the image is filled up to `c`. */
  ghost function Mapped(s: IoSlave, dir: Direction, c: nat): IoSlave
    requires Ready(s, dir) && Mappable(s, dir) && Bits(s, dir) > 0
  {
    var f := SlaveFmmus(s, dir, c);
    var u := s.FMMUunused;
    Pointed(s, dir, c).(FMMU := Set(s.FMMU, u, f, |f|), FMMUunused := u + |f|)
  }

  /** Sets the data pointer of a slave to its first window, unless it is set. The pointer is an
      offset into the IO map. */
  method SetPointer(s: IoSlave, dir: Direction, f: Fmmu) returns (r: IoSlave)
    ensures r == if dir.Outputs?
                 then (if s.outputs.None? then s.(outputs := Some(f.LogStart), Ostartbit := f.LogStartbit) else s)
                 else (if s.inputs.None? then s.(inputs := Some(f.LogStart), Istartbit := f.LogStartbit) else s)
  {
    r := s;
    if dir.Outputs? {
      if s.outputs.None? {
        r := s.(outputs := Some(f.LogStart), Ostartbit := f.LogStartbit);
      }
    } else {
      if s.inputs.None? {
        r := s.(inputs := Some(f.LogStart), Istartbit := f.LogStartbit);
      }
    }
  }

  /** How far the mapping of a slave has come: the FMMUs that are still to be set. */
  ghost predicate Remaining(s: IoSlave, dir: Direction, rest: seq<Fmmu>,
                            SMc: nat, ByteCount: nat, FMMUdone: nat, c: nat)
    requires |s.SM| == EC_MAXSM && SMc < EC_MAXSM && Bits(s, dir) > 0
  {
    var bytes := (Bits(s, dir) + 7) / 8;
    if Bytes(s, dir) == 0 then
      if FMMUdone == 0 then
        rest == [BitFmmu(s.SM[NextOfType(s.SM, dir.smtype, 0)].StartAddr, c, Bits(s, dir), dir.fmmutype)]
        && SMc == 0 && ByteCount == 0
      else rest == []
    else
      && (FMMUdone < bytes ==> FMMUdone >= ByteCount && Enough(s.SM, dir.smtype, Bits(s, dir), SMc, ByteCount))
      && FMMUdone <= bytes
      && rest == ByteFmmus(Windows(s.SM, dir.smtype, Bits(s, dir), SMc, ByteCount, FMMUdone), (c + 7) / 8, dir.fmmutype)
  }

  lemma {:induction false} NothingRemains(s: IoSlave, dir: Direction, rest: seq<Fmmu>,
                                          SMc: nat, ByteCount: nat, FMMUdone: nat, c: nat)
    requires |s.SM| == EC_MAXSM && SMc < EC_MAXSM && Bits(s, dir) > 0
    requires Remaining(s, dir, rest, SMc, ByteCount, FMMUdone, c)
    requires FMMUdone >= (Bits(s, dir) + 7) / 8
    ensures rest == []
    ensures Bytes(s, dir) > 0 ==> FMMUdone == (Bits(s, dir) + 7) / 8
  {
    NoMoreWindows(s.SM, dir.smtype, Bits(s, dir), SMc, ByteCount, FMMUdone);
  }

  /** The cursor behind a window of `size` bytes that is placed at cursor `c`. */
  function Moved(s: IoSlave, dir: Direction, c: nat, size: nat): nat {
    if Bytes(s, dir) == 0 then c + Bits(s, dir) else 8 * ((c + 7) / 8 + size)
  }

  /** Sets one FMMU: the one at the head of what remains. */
  method MapWindow(s: IoSlave, dir: Direction, ghost rest: seq<Fmmu>, SMc0: nat, ByteCount0: nat, FMMUdone: nat,
                   logAddr0: nat, bitPos0: nat)
      returns (fmmu: Fmmu, SMc: nat, ByteCount: nat, logAddr: nat, bitPos: nat)
    requires Ready(s, dir) && Bits(s, dir) > 0 && SMc0 < EC_MAXSM && bitPos0 < 8
    requires FMMUdone < (Bits(s, dir) + 7) / 8
    requires Remaining(s, dir, rest, SMc0, ByteCount0, FMMUdone, Cursor(logAddr0, bitPos0))
    ensures bitPos < 8 && SMc < EC_MAXSM
    ensures |rest| > 0 && fmmu == rest[0]
    ensures Remaining(s, dir, rest[1..], SMc, ByteCount, FMMUdone + fmmu.LogLength, Cursor(logAddr, bitPos))
    ensures SMc > SMc0 || FMMUdone + fmmu.LogLength >= (Bits(s, dir) + 7) / 8
    ensures Cursor(logAddr, bitPos) == Moved(s, dir, Cursor(logAddr0, bitPos0), fmmu.LogLength)
    ensures Bytes(s, dir) == 0 ==> fmmu.LogLength > 0
  {
    hide Windows;
    hide NextOfType;
    hide RunEnd;
    hide Supply;
    var bits := Bits(s, dir);
    var phys;
    if Bytes(s, dir) > 0 {
      WindowsStep(s.SM, dir.smtype, bits, SMc0, ByteCount0, FMMUdone, (Cursor(logAddr0, bitPos0) + 7) / 8,
        dir.fmmutype);
    }
    phys, SMc, ByteCount := CountRun(s.SM, dir.smtype, bits, SMc0, ByteCount0);
    if Bytes(s, dir) == 0 {
      fmmu, logAddr, bitPos := PlaceBits(bits, phys, dir.fmmutype, logAddr0, bitPos0);
    } else {
      fmmu, logAddr, bitPos := PlaceBytes(ByteCount, Bytes(s, dir) - FMMUdone, phys, dir.fmmutype, logAddr0, bitPos0);
    }
  }

  /** The FMMU list once the first `n` FMMUs of `f` are set. */
  ghost function Set(fmmus: seq<Fmmu>, u: nat, f: seq<Fmmu>, n: nat): seq<Fmmu>
    requires n <= |f| && u + |f| <= |fmmus|
  {
    fmmus[..u] + f[..n] + fmmus[u + n..]
  }

  lemma {:induction false} SetOneMore(fmmus: seq<Fmmu>, u: nat, f: seq<Fmmu>, n: nat)
    requires n < |f| && u + |f| <= |fmmus|
    ensures |Set(fmmus, u, f, n)| == |fmmus|
    ensures Set(fmmus, u, f, n)[u + n := f[n]] == Set(fmmus, u, f, n + 1)
    ensures f[n] == f[n..][0] && f[n + 1..] == f[n..][1..]
  {
  }

  lemma {:induction false} SetNone(fmmus: seq<Fmmu>, u: nat, f: seq<Fmmu>)
    requires u + |f| <= |fmmus|
    ensures f[0..] == f && Set(fmmus, u, f, 0) == fmmus
  {
  }

  lemma {:induction false} FirstFmmu(s: IoSlave, dir: Direction, c: nat)
    requires Ready(s, dir) && Mappable(s, dir) && Bits(s, dir) > 0
    ensures var f := SlaveFmmus(s, dir, c);
            && |f| > 0
            && f[0].LogStart == DataStart(c, Bits(s, dir)) / 8 && f[0].LogStartbit == DataStart(c, Bits(s, dir)) % 8
  {
    if Bytes(s, dir) > 0 {
      WindowsHead(s.SM, dir.smtype, Bits(s, dir), 0, 0, 0);
    }
  }

  lemma {:induction false} RemainingAtStart(s: IoSlave, dir: Direction, c: nat)
    requires Ready(s, dir) && Mappable(s, dir) && Bits(s, dir) > 0
    ensures Remaining(s, dir, SlaveFmmus(s, dir, c), 0, 0, 0, c)
  {
    assert Enough(s.SM, dir.smtype, Bits(s, dir), 0, 0);
    assert SlaveFmmus(s, dir, c) ==
      if Bytes(s, dir) == 0 then
        [BitFmmu(s.SM[NextOfType(s.SM, dir.smtype, 0)].StartAddr, c, Bits(s, dir), dir.fmmutype)]
      else
        ByteFmmus(Windows(s.SM, dir.smtype, Bits(s, dir), 0, 0, 0), (c + 7) / 8, dir.fmmutype);
  }

  /** The FMMU to start with. For the inputs of a slave with outputs it is the first from the
      unused ones on that has no logical address. */
  method FreeFmmu(s: IoSlave, dir: Direction) returns (FMMUc: nat)
    requires exists k :: s.FMMUunused <= k < |s.FMMU| && s.FMMU[k].LogStart == 0
    ensures s.FMMUunused <= FMMUc < |s.FMMU|
    ensures FMMUc == s.FMMUunused || (dir.Inputs? && s.Obits > 0)
    ensures dir.Inputs? && s.Obits > 0 ==>
      s.FMMU[FMMUc].LogStart == 0 && forall k :: s.FMMUunused <= k < FMMUc ==> s.FMMU[k].LogStart != 0
  {
    FMMUc := s.FMMUunused;
    if dir.Inputs? && s.Obits > 0 {
      while s.FMMU[FMMUc].LogStart != 0
        invariant s.FMMUunused <= FMMUc < |s.FMMU|
        invariant forall k :: s.FMMUunused <= k < FMMUc ==> s.FMMU[k].LogStart != 0
        decreases |s.FMMU| - FMMUc
      {
        FMMUc := FMMUc + 1;
      }
    }
  }

  /** Maps one direction of a slave at the cursor. The loop ends because every pass that does
      not finish moves on to a later sync manager. */
  method CreateMappings(s: IoSlave, dir: Direction, logAddr0: nat, bitPos0: nat)
      returns (s': IoSlave, logAddr: nat, bitPos: nat)
    requires Ready(s, dir) && Mappable(s, dir) && Bits(s, dir) > 0 && bitPos0 < 8
    ensures s' == Mapped(s, dir, Cursor(logAddr0, bitPos0))
    ensures bitPos < 8 && Cursor(logAddr, bitPos) == DataEnd(Cursor(logAddr0, bitPos0), Bits(s, dir))
  {
    hide Windows;
    hide Supply;
    hide NextOfType;
    hide Enough;
    hide ByteFmmus;
    hide BitFmmu;
    hide SlaveWindows;
    hide SlaveFmmus;
    hide Remaining;
    hide Tile;
    hide Set;
    hide DataStart;
    hide DataEnd;
    hide Reached;
    hide Cursor;
    ghost var c := Cursor(logAddr0, bitPos0);
    ghost var f := SlaveFmmus(s, dir, c);
    ghost var n := 0;
    FirstFmmu(s, dir, c);
    RemainingAtStart(s, dir, c);
    SlaveFmmusTile(s, dir, c);
    SetNone(s.FMMU, s.FMMUunused, f);
    s', logAddr, bitPos := s, logAddr0, bitPos0;
    assert s.FMMU[s.FMMUunused] == BlankFmmu;
    var FMMUc := FreeFmmu(s, dir);
    var bytes := (Bits(s, dir) + 7) / 8;
    var SMc: nat, ByteCount: nat, FMMUdone: nat := 0, 0, 0;
    // search for sync managers that contribute to the mapping
    while SMc < EC_MAXSM && FMMUdone < bytes
      invariant SMc < EC_MAXSM && bitPos < 8
      invariant n <= |f| && FMMUc == s.FMMUunused + n
      invariant Remaining(s, dir, f[n..], SMc, ByteCount, FMMUdone, Cursor(logAddr, bitPos))
      invariant n == 0 ==> s' == s && FMMUdone == 0 && Cursor(logAddr, bitPos) == c
      invariant n > 0 ==> s' == Pointed(s, dir, c).(FMMU := Set(s.FMMU, s.FMMUunused, f, n))
      invariant n > 0 ==> Cursor(logAddr, bitPos) == Reached(s, dir, c, FMMUdone)
      invariant n > 0 && Bytes(s, dir) == 0 ==> FMMUdone > 0
      decreases if FMMUdone >= bytes then 0 else 1 + EC_MAXSM - SMc
    {
      var fmmu;
      ghost var cursor, done := Cursor(logAddr, bitPos), FMMUdone;
      RemainsSome(s, dir, f[n..], SMc, ByteCount, FMMUdone, Cursor(logAddr, bitPos));
      SetOneMore(s.FMMU, s.FMMUunused, f, n);
      fmmu, SMc, ByteCount, logAddr, bitPos :=
        MapWindow(s, dir, f[n..], SMc, ByteCount, FMMUdone, logAddr, bitPos);
      ReachedMore(s, dir, c, n, cursor, done, fmmu.LogLength);
      s' := s'.(FMMU := s'.FMMU[FMMUc := fmmu]);
      FMMUdone := FMMUdone + fmmu.LogLength;
      s' := SetPointer(s', dir, fmmu);
      FMMUc := FMMUc + 1;
      n := n + 1;
    }
    NothingRemains(s, dir, f[n..], SMc, ByteCount, FMMUdone, Cursor(logAddr, bitPos));
    ReachedEnd(s, dir, c);
    s' := s'.(FMMUunused := FMMUc);
  }

  /** The slave record once its first window is placed, up to the FMMUs. */
  ghost function Pointed(s: IoSlave, dir: Direction, c: nat): IoSlave {
    var first := DataStart(c, Bits(s, dir));
    if dir.Outputs? then
      if s.outputs.None? then s.(outputs := Some(first / 8), Ostartbit := first % 8) else s
    else
      if s.inputs.None? then s.(inputs := Some(first / 8), Istartbit := first % 8) else s
  }

  /** The cursor once `done` bytes of the slave are mapped. */
  ghost function Reached(s: IoSlave, dir: Direction, c: nat, done: nat): nat {
    if Bytes(s, dir) == 0 then c + Bits(s, dir) else DataStart(c, Bits(s, dir)) + 8 * done
  }

  lemma {:induction false} ReachedMore(s: IoSlave, dir: Direction, c: nat, n: nat, cursor: nat, done: nat, size: nat)
    requires Ready(s, dir) && Bits(s, dir) > 0
    requires if n == 0 then cursor == c && done == 0 else Bytes(s, dir) > 0 && cursor == Reached(s, dir, c, done)
    ensures Moved(s, dir, cursor, size) == Reached(s, dir, c, done + size)
  {
  }

  lemma {:induction false} ReachedEnd(s: IoSlave, dir: Direction, c: nat)
    requires Ready(s, dir) && Bits(s, dir) > 0
    ensures Bytes(s, dir) > 0 ==> Reached(s, dir, c, (Bits(s, dir) + 7) / 8) == DataEnd(c, Bits(s, dir))
    ensures Bytes(s, dir) == 0 ==> forall done :: Reached(s, dir, c, done) == DataEnd(c, Bits(s, dir))
  {
  }

  lemma {:induction false} RemainsSome(s: IoSlave, dir: Direction, rest: seq<Fmmu>,
                                       SMc: nat, ByteCount: nat, FMMUdone: nat, c: nat)
    requires |s.SM| == EC_MAXSM && SMc < EC_MAXSM && Bits(s, dir) > 0
    requires Remaining(s, dir, rest, SMc, ByteCount, FMMUdone, c)
    requires FMMUdone < (Bits(s, dir) + 7) / 8
    requires Bytes(s, dir) > 0 || FMMUdone == 0
    ensures |rest| > 0
  {
    if Bytes(s, dir) > 0 {
      WindowsHead(s.SM, dir.smtype, Bits(s, dir), SMc, ByteCount, FMMUdone);
    }
  }
}
