/** What the FMMUs of a mapped slave do: which bits of the image the slave takes or gives, through
    which FMMU, and from which sync manager on. */
module IoWindows {
  import opened EcTypes
  import opened IoSegments
  import opened IoMapping
  import opened IoGroup
  import opened IoImage

  /** The FMMU is active, of the type, and has bit `b` of the image in its window. */
  predicate Serves(f: Fmmu, fmmutype: nat, b: nat) {
    && f.FMMUactive && f.FMMUtype == fmmutype
    && 8 * f.LogStart + f.LogStartbit <= b <= 8 * (f.LogStart + f.LogLength - 1) + f.LogEndbit
  }

  // Exactly one of the FMMUs serves a bit, or none.
  ghost predicate ServedOnce(f: seq<Fmmu>, fmmutype: nat, b: nat) {
    exists i :: 0 <= i < |f| && ServedAt(f, fmmutype, b, i)
  }

  ghost predicate ServedAt(f: seq<Fmmu>, fmmutype: nat, b: nat, i: nat)
    requires i < |f|
  {
    Serves(f[i], fmmutype, b) && forall j :: 0 <= j < |f| && j != i ==> !Serves(f[j], fmmutype, b)
  }

  ghost predicate NotServed(f: seq<Fmmu>, fmmutype: nat, b: nat) {
    forall i :: 0 <= i < |f| ==> !Serves(f[i], fmmutype, b)
  }

  /** The FMMU of a window: if the window has data it is active and of the type, and it begins
      where a sync manager of the type begins. */
  ghost predicate Configured(f: Fmmu, sm: seq<SyncManager>, smtype: nat, fmmutype: nat) {
    && f.FMMUactive == (f.LogLength > 0) && f.LogEndbit < 8
    && (f.LogLength > 0 ==> f.FMMUtype == fmmutype)
    && exists j :: 0 <= j < |sm| && sm[j].SMtype == smtype && f.PhysStart == sm[j].StartAddr
  }

  ghost predicate AllConfigured(f: seq<Fmmu>, sm: seq<SyncManager>, smtype: nat, fmmutype: nat) {
    forall i :: 0 <= i < |f| ==> Configured(f[i], sm, smtype, fmmutype)
  }

  lemma {:induction false} ByteFmmusConfigured(
    sm: seq<SyncManager>, smtype: nat, bits: nat, i: nat, count: nat, done: nat, logAddr: nat, fmmutype: nat)
    requires |sm| == EC_MAXSM && i < EC_MAXSM && done <= (bits + 7) / 8
    requires done < (bits + 7) / 8 ==> done >= count && Enough(sm, smtype, bits, i, count)
    ensures AllConfigured(ByteFmmus(Windows(sm, smtype, bits, i, count, done), logAddr, fmmutype), sm, smtype, fmmutype)
    decreases EC_MAXSM - i
  {
    hide Windows;
    hide ByteFmmus;
    hide NextOfType;
    hide RunEnd;
    hide Supply;
    var bytes := (bits + 7) / 8;
    if done >= bytes {
      NoMoreWindows(sm, smtype, bits, i, count, done);
      NoFmmus(logAddr, fmmutype);
    } else {
      var j := NextOfType(sm, smtype, i);
      var (e, c) := RunEnd(sm, smtype, bits, j, count + sm[j].SMlength);
      var size := if c > bytes - done then bytes - done else c;
      WindowsStep(sm, smtype, bits, i, count, done, logAddr, fmmutype);
      NextIsOfType(sm, smtype, bits, i, count);
      OneFmmu(sm, j, smtype, size, logAddr, fmmutype);
      hide Configured;
      hide Enough;
      if e > i {
        ByteFmmusConfigured(sm, smtype, bits, e, c, done + size, logAddr + size, fmmutype);
      } else {
        NoMoreWindows(sm, smtype, bits, e, c, done + size);
        NoFmmus(logAddr + size, fmmutype);
      }
    }
  }

  lemma {:induction false} NoFmmus(logAddr: nat, fmmutype: nat)
    ensures ByteFmmus([], logAddr, fmmutype) == []
  {
  }

  lemma {:induction false} OneFmmu(
    sm: seq<SyncManager>, j: nat, smtype: nat, size: nat, logAddr: nat, fmmutype: nat)
    requires j < |sm| && sm[j].SMtype == smtype
    ensures AllConfigured(ByteFmmus([Window(sm[j].StartAddr, size)], logAddr, fmmutype), sm, smtype, fmmutype)
  {
    var w := Window(sm[j].StartAddr, size);
    assert [w][1..] == [];
    NoFmmus(logAddr + size, fmmutype);
  }

  /** The FMMUs that mapping sets, for sync managers of type 3 and FMMUs of type 2 for outputs, and
      of types 4 and 1 for inputs. */
  lemma {:induction false} SlaveConfigured(s: IoSlave, dir: Direction, c: nat)
    requires Ready(s, dir) && Mappable(s, dir) && Bits(s, dir) > 0
    ensures AllConfigured(SlaveFmmus(s, dir, c), s.SM, if dir.Outputs? then 3 else 4, if dir.Outputs? then 2 else 1)
  {
    hide Windows;
    hide ByteFmmus;
    hide NextOfType;
    hide Supply;
    if Bytes(s, dir) == 0 {
      NextIsOfType(s.SM, dir.smtype, Bits(s, dir), 0, 0);
    } else {
      ByteFmmusConfigured(s.SM, dir.smtype, Bits(s, dir), 0, 0, 0, (c + 7) / 8, dir.fmmutype);
    }
  }

  // Which bits are served

  lemma {:induction false} Joined(f: seq<Fmmu>, g: seq<Fmmu>, fmmutype: nat, b: nat)
    ensures NotServed(f, fmmutype, b) && NotServed(g, fmmutype, b) ==> NotServed(f + g, fmmutype, b)
    ensures ServedOnce(f, fmmutype, b) && NotServed(g, fmmutype, b) ==> ServedOnce(f + g, fmmutype, b)
    ensures NotServed(f, fmmutype, b) && ServedOnce(g, fmmutype, b) ==> ServedOnce(f + g, fmmutype, b)
  {
    hide Serves;
    if ServedOnce(f, fmmutype, b) && NotServed(g, fmmutype, b) {
      var i :| 0 <= i < |f| && ServedAt(f, fmmutype, b, i);
      assert ServedAt(f + g, fmmutype, b, i);
    }
    if NotServed(f, fmmutype, b) && ServedOnce(g, fmmutype, b) {
      var i :| 0 <= i < |g| && ServedAt(g, fmmutype, b, i);
      forall j | 0 <= j < |f + g| && j != |f| + i ensures !Serves((f + g)[j], fmmutype, b) {
        assert (f + g)[j] == if j < |f| then f[j] else g[j - |f|];
      }
      assert ServedAt(f + g, fmmutype, b, |f| + i);
    }
  }

  lemma {:induction false} OneServes(f: Fmmu, sm: seq<SyncManager>, smtype: nat, fmmutype: nat, b: nat)
    requires Configured(f, sm, smtype, fmmutype) && Last(f) >= First(f)
    ensures Serves(f, fmmutype, b) <==> First(f) <= b < Last(f)
    ensures First(f) <= b < Last(f) ==> ServedAt([f], fmmutype, b, 0) && ServedOnce([f], fmmutype, b)
    ensures !(First(f) <= b < Last(f)) ==> NotServed([f], fmmutype, b)
  {
    assert First(f) <= b < Last(f) ==> ServedAt([f], fmmutype, b, 0);
  }

  /** FMMUs that lie one behind the other serve every bit in their range once, and no other. */
  lemma {:induction false} TileServes(
    f: seq<Fmmu>, sm: seq<SyncManager>, smtype: nat, fmmutype: nat, lo: nat, hi: nat, b: nat)
    requires Tile(f, lo, hi) && AllConfigured(f, sm, smtype, fmmutype)
    ensures lo <= hi
    ensures if lo <= b < hi then ServedOnce(f, fmmutype, b) else NotServed(f, fmmutype, b)
  {
    hide Serves;
    hide First;
    hide Last;
    hide ServedOnce;
    hide ServedAt;
    hide Configured;
    if f != [] {
      assert Configured(f[0], sm, smtype, fmmutype);
      OneServes(f[0], sm, smtype, fmmutype, b);
      TileServes(f[1..], sm, smtype, fmmutype, Last(f[0]), hi, b);
      assert f == [f[0]] + f[1..];
      Joined([f[0]], f[1..], fmmutype, b);
    }
  }

  lemma {:induction false} OtherType(f: seq<Fmmu>, sm: seq<SyncManager>, smtype: nat, fmmutype: nat, other: nat, b: nat)
    requires AllConfigured(f, sm, smtype, fmmutype) && other != fmmutype
    ensures NotServed(f, other, b)
  {
    forall i | 0 <= i < |f| ensures !Serves(f[i], other, b) {
      assert Configured(f[i], sm, smtype, fmmutype);
    }
  }

  // The FMMUs of a mapped slave

  function Blanks(n: nat): (f: seq<Fmmu>)
    ensures |f| == n
  {
    seq(n, i => BlankFmmu)
  }

  lemma {:induction false} BlanksServeNothing(n: nat, fmmutype: nat, b: nat)
    ensures NotServed(Blanks(n), fmmutype, b)
  {
  }

  /** The FMMUs that mapping one direction of a slave sets. */
  ghost function WindowsSet(s: IoSlave, dir: Direction, c: nat): seq<Fmmu>
    requires |s.SM| == EC_MAXSM
  {
    if Bits(s, dir) == 0 then [] else SlaveFmmus(s, dir, c)
  }

  lemma {:induction false} MappedTail(s: IoSlave, dir: Direction, c: nat)
    requires Ready(s, dir) && (Bits(s, dir) > 0 ==> Mappable(s, dir))
    ensures var r := if Bits(s, dir) == 0 then s else Mapped(s, dir, c);
            var u, f := s.FMMUunused, WindowsSet(s, dir, c);
            && |r.FMMU| == EC_MAXFMMU && u + |f| == r.FMMUunused <= EC_MAXFMMU
            && r.FMMU[u..] == f + Blanks(EC_MAXFMMU - r.FMMUunused) && r.FMMU[..u] == s.FMMU[..u]
            && r.SM == s.SM && r.Ibits == s.Ibits && r.mbx_l == s.mbx_l
  {
    hide SlaveFmmus;
    hide Windows;
    hide Supply;
    hide NextOfType;
    var u, f := s.FMMUunused, WindowsSet(s, dir, c);
    assert s.FMMU[u + |f|..] == Blanks(EC_MAXFMMU - u - |f|);
    if Bits(s, dir) > 0 {
      assert Set(s.FMMU, u, f, |f|)[u..] == f + s.FMMU[u + |f|..];
    }
  }

  lemma {:induction false} BothTail(s: IoSlave, cO: nat, cI: nat)
    requires SlaveFits(s) && |s.SM| == EC_MAXSM
    ensures var r, u := BothMapped(s, cO, cI), s.FMMUunused;
            var f := WindowsSet(s, Outputs, cO) + WindowsSet(s, Inputs, cI);
            && |r.FMMU| == EC_MAXFMMU && u + |f| == r.FMMUunused <= EC_MAXFMMU
            && r.FMMU[u..] == f + Blanks(EC_MAXFMMU - r.FMMUunused) && r.SM == s.SM && r.mbx_l == s.mbx_l
  {
    hide *;
    BothParts(s, cO, cI);
    var m, r := OutMapped(s, cO), BothMapped(s, cO, cI);
    TailsJoin(r.FMMU, m.FMMU, s.FMMUunused, WindowsSet(s, Outputs, cO), Blanks(EC_MAXFMMU - m.FMMUunused),
              WindowsSet(s, Inputs, cI), Blanks(EC_MAXFMMU - r.FMMUunused));
  }

  lemma {:induction false} TailsJoin(
    r: seq<Fmmu>, m: seq<Fmmu>, u: nat, a: seq<Fmmu>, rest: seq<Fmmu>, b: seq<Fmmu>, blanks: seq<Fmmu>)
    requires u + |a| <= |m| && u + |a| <= |r| && r[..u + |a|] == m[..u + |a|] && m[u..] == a + rest
    requires r[u + |a|..] == b + blanks
    ensures r[u..] == a + b + blanks
  {
    assert r[u..u + |a|] == r[..u + |a|][u..] == m[..u + |a|][u..] == m[u..][..|a|] == a;
    assert r[u..] == r[u..u + |a|] + r[u + |a|..];
  }

  lemma {:induction false} OutMappedIs(s: IoSlave, cO: nat)
    requires SlaveFits(s)
    ensures Bits(s, Outputs) > 0 ==> Ready(s, Outputs) && Mappable(s, Outputs)
    ensures OutMapped(s, cO) == if Bits(s, Outputs) == 0 then s else Mapped(s, Outputs, cO)
  {
    FitsMapped(s, cO);
    hide Mapped;
    hide Ready;
    hide Mappable;
    hide SlaveFits;
  }

  lemma {:induction false} BothMappedIs(s: IoSlave, cO: nat, cI: nat)
    requires SlaveFits(s)
    ensures var m := OutMapped(s, cO);
            && Ready(m, Inputs) && (Bits(m, Inputs) > 0 ==> Mappable(m, Inputs)) && m.Ibits == s.Ibits
            && BothMapped(s, cO, cI) == if Bits(m, Inputs) == 0 then m else Mapped(m, Inputs, cI)
  {
    FitsMapped(s, cO);
    hide Mapped;
    hide Ready;
    hide Mappable;
    hide SlaveFits;
  }

  lemma {:induction false} BothParts(s: IoSlave, cO: nat, cI: nat)
    requires SlaveFits(s) && |s.SM| == EC_MAXSM
    ensures var m, r, u := OutMapped(s, cO), BothMapped(s, cO, cI), s.FMMUunused;
            var a, b := WindowsSet(s, Outputs, cO), WindowsSet(s, Inputs, cI);
            && |m.FMMU| == |r.FMMU| == EC_MAXFMMU && m.FMMUunused == u + |a|
               && r.FMMUunused == u + |a| + |b| <= EC_MAXFMMU
            && m.FMMU[u..] == a + Blanks(EC_MAXFMMU - m.FMMUunused)
            && r.FMMU[..m.FMMUunused] == m.FMMU[..m.FMMUunused]
            && r.FMMU[m.FMMUunused..] == b + Blanks(EC_MAXFMMU - r.FMMUunused)
            && r.SM == s.SM && r.mbx_l == s.mbx_l
  {
    hide *;
    FitsBoth(s);
    BitsOf(s);
    OutMappedIs(s, cO);
    var m := OutMapped(s, cO);
    MappedTail(s, Outputs, cO);
    BothMappedIs(s, cO, cI);
    BitsOf(m);
    MappedTail(m, Inputs, cI);
    SameWindowsSet(s, m, cI);
  }

  lemma {:induction false} SameWindowsSet(s: IoSlave, m: IoSlave, c: nat)
    requires Ready(s, Inputs) && Ready(m, Inputs) && m.SM == s.SM && m.Ibits == s.Ibits
    ensures WindowsSet(s, Inputs, c) == WindowsSet(m, Inputs, c)
  {
    hide SlaveFmmus;
    hide Ready;
    if s.Ibits > 0 {
      SameWindows(s, m, Inputs, c);
    }
  }

  /** The FMMU of the mailbox status byte: type 1, one byte, at the status register of sync manager 1. */
  ghost function StatusSet(s: IoSlave, at: nat): seq<Fmmu> {
    if s.mbx_l > 0 && s.FMMUunused < 4 then [Fmmu(at, 1, 0, 7, 0x080d, 1, true)] else []
  }

  lemma {:induction false} StatusTail(s: IoSlave, at: nat, u: nat, f: seq<Fmmu>)
    requires |s.FMMU| == EC_MAXFMMU && u + |f| == s.FMMUunused <= EC_MAXFMMU
    requires s.FMMU[u..] == f + Blanks(EC_MAXFMMU - s.FMMUunused)
    ensures var r := WithStatus(s, at);
            && |r.FMMU| == EC_MAXFMMU && u + |f + StatusSet(s, at)| == r.FMMUunused <= EC_MAXFMMU
            && r.FMMU[u..] == f + StatusSet(s, at) + Blanks(EC_MAXFMMU - r.FMMUunused) && r.SM == s.SM
  {
    var n := EC_MAXFMMU - s.FMMUunused;
    if s.mbx_l > 0 && s.FMMUunused < 4 {
      assert Blanks(n) == [BlankFmmu] + Blanks(n - 1);
      var r := WithStatus(s, at);
      assert r.FMMU[u..] == s.FMMU[u..][|f| := Fmmu(at, 1, 0, 7, 0x080d, 1, true)];
    }
  }

  lemma {:induction false} GroupMember(slaves: seq<IoSlave>, k: nat)
    requires GroupFits(slaves) && 1 <= k < |slaves|
    ensures SlaveFits(slaves[k])
  {
    hide SlaveFits;
  }

  /** The FMMUs of slave `k` when the group is mapped: those of its outputs, of its inputs and of its
      status byte, and nothing behind them. */
  lemma {:induction false} FinalTail(slaves: seq<IoSlave>, packed: bool, k: nat)
    requires |slaves| >= 1 && GroupFits(slaves) && 1 <= k < |slaves|
    ensures |slaves[k].SM| == EC_MAXSM
    ensures var s, r := slaves[k], FinalList(slaves, packed)[k];
            var f := WindowsSet(s, Outputs, CursorAt(slaves, Outputs, packed, 0, k))
                     + WindowsSet(s, Inputs, CursorAt(slaves, Inputs, packed, 8 * OutBytes(slaves, packed), k))
                     + StatusSet(IoList(slaves, packed)[k], StatusAddress(slaves, packed, k));
            && |r.FMMU| == EC_MAXFMMU && s.FMMUunused + |f| == r.FMMUunused <= EC_MAXFMMU
            && r.FMMU[s.FMMUunused..] == f + Blanks(EC_MAXFMMU - r.FMMUunused) && r.SM == s.SM
  {
    hide *;
    GroupMember(slaves, k);
    var s := slaves[k];
    var cO := CursorAt(slaves, Outputs, packed, 0, k);
    var cI := CursorAt(slaves, Inputs, packed, 8 * OutBytes(slaves, packed), k);
    FitsBoth(s);
    FinalSlave(slaves, packed, k);
    BothTail(s, cO, cI);
    StatusTail(BothMapped(s, cO, cI), StatusAddress(slaves, packed, k), s.FMMUunused,
               WindowsSet(s, Outputs, cO) + WindowsSet(s, Inputs, cI));
  }

  /** The windows of one direction: FMMUs of type 2 for outputs and of type 1 for inputs. */
  lemma {:induction false} WindowsServe(s: IoSlave, dir: Direction, c: nat, b: nat)
    requires Ready(s, dir) && (Bits(s, dir) > 0 ==> Mappable(s, dir))
    ensures var f, own := WindowsSet(s, dir, c), if dir.Outputs? then 2 else 1;
            && (if Bits(s, dir) > 0 && DataStart(c, Bits(s, dir)) <= b < DataEnd(c, Bits(s, dir)) then
                  ServedOnce(f, own, b)
                else NotServed(f, own, b))
            && NotServed(f, 3 - own, b)
  {
    hide SlaveFmmus;
    hide ServedOnce;
    hide DataStart;
    hide DataEnd;
    if Bits(s, dir) > 0 {
      var smtype, own := if dir.Outputs? then 3 else 4, if dir.Outputs? then 2 else 1;
      SlaveConfigured(s, dir, c);
      SlaveFmmusTile(s, dir, c);
      hide Ready;
      hide Mappable;
      hide NotServed;
      hide AllConfigured;
      TileServes(SlaveFmmus(s, dir, c), s.SM, smtype, own, DataStart(c, Bits(s, dir)), DataEnd(c, Bits(s, dir)), b);
      OtherType(SlaveFmmus(s, dir, c), s.SM, smtype, own, 3 - own, b);
    }
  }

  lemma {:induction false} StatusServes(s: IoSlave, at: nat, b: nat)
    ensures if s.mbx_l > 0 && s.FMMUunused < 4 && 8 * at <= b < 8 * at + 8 then ServedOnce(StatusSet(s, at), 1, b)
            else NotServed(StatusSet(s, at), 1, b)
    ensures NotServed(StatusSet(s, at), 2, b)
  {
    var f := StatusSet(s, at);
    if s.mbx_l > 0 && s.FMMUunused < 4 && 8 * at <= b < 8 * at + 8 {
      assert ServedAt(f, 1, b, 0);
    }
  }

  /** Bit `b` of the image belongs to the data of slave `k`. */
  ghost predicate IsOwn(slaves: seq<IoSlave>, dir: Direction, packed: bool, k: nat, b: nat)
    requires 1 <= k < |slaves|
  {
    var c := if dir.Outputs? then 0 else 8 * OutBytes(slaves, packed);
    Bits(slaves[k], dir) > 0 && StartBit(slaves, dir, packed, c, k) <= b < EndBit(slaves, dir, packed, c, k)
  }

  /** Bit `b` of the image belongs to the mailbox status byte of slave `k`. */
  ghost predicate IsStatus(slaves: seq<IoSlave>, packed: bool, k: nat, b: nat)
    requires GroupFits(slaves) && 1 <= k < |slaves|
  {
    var s, at := IoList(slaves, packed)[k], StatusAddress(slaves, packed, k);
    s.mbx_l > 0 && s.FMMUunused < 4 && 8 * at <= b < 8 * at + 8
  }

  lemma {:induction false} FinalParts(slaves: seq<IoSlave>, packed: bool, k: nat)
    requires |slaves| >= 1 && GroupFits(slaves) && 1 <= k < |slaves|
    ensures var s, r := slaves[k], FinalList(slaves, packed)[k];
            && Ready(s, Outputs) && Ready(s, Inputs)
            && (Bits(s, Outputs) > 0 ==> Mappable(s, Outputs)) && (Bits(s, Inputs) > 0 ==> Mappable(s, Inputs))
            && s.FMMUunused <= |r.FMMU| && r.FMMUunused <= EC_MAXFMMU
            && r.FMMU[s.FMMUunused..]
               == WindowsSet(s, Outputs, CursorAt(slaves, Outputs, packed, 0, k))
                  + WindowsSet(s, Inputs, CursorAt(slaves, Inputs, packed, 8 * OutBytes(slaves, packed), k))
                  + StatusSet(IoList(slaves, packed)[k], StatusAddress(slaves, packed, k))
                  + Blanks(EC_MAXFMMU - r.FMMUunused)
  {
    FitsBoth(slaves[k]);
    hide *;
    FinalTail(slaves, packed, k);
    BitsOf(slaves[k]);
  }

  lemma {:induction false} BitsOf(s: IoSlave)
    ensures Bits(s, Outputs) == s.Obits && Bits(s, Inputs) == s.Ibits
  {
  }

  /** When a group is mapped, a slave takes exactly the bits of its outputs, each through one active
      FMMU of type 2, and gives exactly those of its inputs and of its status byte, each through one
      active FMMU of type 1. */
  lemma {:induction false} SlaveServesItsBits(slaves: seq<IoSlave>, packed: bool, k: nat, b: nat)
    requires |slaves| >= 1 && GroupFits(slaves) && 1 <= k < |slaves|
    ensures slaves[k].FMMUunused <= |FinalList(slaves, packed)[k].FMMU|
    ensures var f := FinalList(slaves, packed)[k].FMMU[slaves[k].FMMUunused..];
            && (if IsOwn(slaves, Outputs, packed, k, b) then ServedOnce(f, 2, b) else NotServed(f, 2, b))
            && (if IsOwn(slaves, Inputs, packed, k, b) || IsStatus(slaves, packed, k, b) then ServedOnce(f, 1, b)
                else NotServed(f, 1, b))
  {
    FinalParts(slaves, packed, k);
    hide *;
    StatusApartFromInputs(slaves, packed, k, b);
    var s, io, at := slaves[k], IoList(slaves, packed)[k], StatusAddress(slaves, packed, k);
    var cO := CursorAt(slaves, Outputs, packed, 0, k);
    var cI := CursorAt(slaves, Inputs, packed, 8 * OutBytes(slaves, packed), k);
    OwnIs(slaves, Outputs, packed, k, b);
    OwnIs(slaves, Inputs, packed, k, b);
    StatusIs(slaves, packed, k, b);
    WindowsServe(s, Outputs, cO, b);
    WindowsServe(s, Inputs, cI, b);
    StatusServes(io, at, b);
    FourParts(WindowsSet(s, Outputs, cO), WindowsSet(s, Inputs, cI), StatusSet(io, at),
              EC_MAXFMMU - FinalList(slaves, packed)[k].FMMUunused, b);
  }

  lemma {:induction false} InputsEnd(slaves: seq<IoSlave>, packed: bool, k: nat)
    requires 1 <= k < |slaves| && slaves[k].Ibits > 0
    ensures EndBit(slaves, Inputs, packed, 8 * OutBytes(slaves, packed), k)
            <= 8 * (OutBytes(slaves, packed) + InBytes(slaves, packed))
  {
    var O := OutBytes(slaves, packed);
    hide OutBytes;
    CursorMoves(slaves, Inputs, packed, 8 * O, k);
    CursorMonotone(slaves, Inputs, packed, 8 * O, k + 1, |slaves|);
    hide CursorAt;
    hide DataStart;
    hide DataEnd;
  }

  /** Status bytes lie behind all inputs. */
  lemma {:induction false} StatusApartFromInputs(slaves: seq<IoSlave>, packed: bool, k: nat, b: nat)
    requires |slaves| >= 1 && GroupFits(slaves) && 1 <= k < |slaves|
    ensures !(IsOwn(slaves, Inputs, packed, k, b) && IsStatus(slaves, packed, k, b))
  {
    hide *;
    OwnIs(slaves, Inputs, packed, k, b);
    StatusIs(slaves, packed, k, b);
    if slaves[k].Ibits > 0 {
      InputsEnd(slaves, packed, k);
    }
  }

  lemma {:induction false} OwnIs(slaves: seq<IoSlave>, dir: Direction, packed: bool, k: nat, b: nat)
    requires 1 <= k < |slaves|
    ensures var c := if dir.Outputs? then 0 else 8 * OutBytes(slaves, packed);
            var at, bits := CursorAt(slaves, dir, packed, c, k), Bits(slaves[k], dir);
            && (IsOwn(slaves, dir, packed, k, b) <==> bits > 0 && DataStart(at, bits) <= b < DataEnd(at, bits))
            && DataEnd(at, bits) == EndBit(slaves, dir, packed, c, k)
            && (dir.Inputs? ==> bits == slaves[k].Ibits)
  {
    hide CursorAt;
    hide OutBytes;
    hide DataStart;
    hide DataEnd;
  }

  lemma {:induction false} StatusIs(slaves: seq<IoSlave>, packed: bool, k: nat, b: nat)
    requires GroupFits(slaves) && 1 <= k < |slaves|
    ensures var s, at := IoList(slaves, packed)[k], StatusAddress(slaves, packed, k);
            && (IsStatus(slaves, packed, k, b) <==> s.mbx_l > 0 && s.FMMUunused < 4 && 8 * at <= b < 8 * at + 8)
            && at >= OutBytes(slaves, packed) + InBytes(slaves, packed)
  {
    hide IoList;
    hide GroupFits;
    hide OutBytes;
    hide InBytes;
    hide StatusSlaves;
  }

  lemma {:induction false} FourParts(o: seq<Fmmu>, i: seq<Fmmu>, status: seq<Fmmu>, n: nat, b: nat)
    requires NotServed(o, 1, b) && NotServed(i, 2, b) && NotServed(status, 2, b)
    requires ServedOnce(i, 1, b) ==> NotServed(status, 1, b)
    requires NotServed(i, 1, b) || ServedOnce(i, 1, b)
    requires NotServed(status, 1, b) || ServedOnce(status, 1, b)
    requires NotServed(o, 2, b) || ServedOnce(o, 2, b)
    ensures var f := o + i + status + Blanks(n);
            && (if ServedOnce(o, 2, b) then ServedOnce(f, 2, b) else NotServed(f, 2, b))
            && (if ServedOnce(i, 1, b) || ServedOnce(status, 1, b) then ServedOnce(f, 1, b) else NotServed(f, 1, b))
  {
    hide ServedOnce;
    hide NotServed;
    BlanksServeNothing(n, 1, b);
    BlanksServeNothing(n, 2, b);
    Joined(o, i, 1, b);
    Joined(o, i, 2, b);
    Joined(o + i, status, 1, b);
    Joined(o + i, status, 2, b);
    Joined(o + i + status, Blanks(n), 1, b);
    Joined(o + i + status, Blanks(n), 2, b);
  }

  lemma {:induction false} WindowsConfigured(s: IoSlave, dir: Direction, c: nat)
    requires Ready(s, dir) && (Bits(s, dir) > 0 ==> Mappable(s, dir))
    ensures AllConfigured(WindowsSet(s, dir, c), s.SM, if dir.Outputs? then 3 else 4, if dir.Outputs? then 2 else 1)
    ensures |WindowsSet(s, dir, c)| == (if Bits(s, dir) > 0 then |SlaveWindows(s, dir)| else 0)
    ensures Bits(s, dir) > 0 ==> |WindowsSet(s, dir, c)| > 0
  {
    hide SlaveFmmus;
    hide Configured;
    if Bits(s, dir) > 0 {
      SlaveConfigured(s, dir, c);
      FirstFmmu(s, dir, c);
    }
  }

  lemma {:induction false} PartsConfigured(
    f: seq<Fmmu>, u: nat, a: seq<Fmmu>, b: seq<Fmmu>, rest: seq<Fmmu>, sm: seq<SyncManager>)
    requires u <= |f| && f[u..] == a + b + rest
    requires AllConfigured(a, sm, 3, 2) && AllConfigured(b, sm, 4, 1)
    ensures u + |a| + |b| <= |f|
    ensures forall i :: u <= i < u + |a| ==> Configured(f[i], sm, 3, 2)
    ensures forall i :: u + |a| <= i < u + |a| + |b| ==> Configured(f[i], sm, 4, 1)
  {
    hide Configured;
    forall i | u <= i < u + |a| ensures Configured(f[i], sm, 3, 2) {
      assert f[i] == f[u..][i - u] == a[i - u];
    }
    forall i | u + |a| <= i < u + |a| + |b| ensures Configured(f[i], sm, 4, 1) {
      assert f[i] == f[u..][i - u] == b[i - u - |a|];
    }
  }

  /** The FMMUs of slave `k` when the group is mapped: those of the output windows, of type 2, begin at
      sync managers of type 3, and those of the input windows, of type 1, at sync managers of type 4. */
  lemma {:induction false} FmmusConfigured(slaves: seq<IoSlave>, packed: bool, k: nat)
    requires |slaves| >= 1 && GroupFits(slaves) && 1 <= k < |slaves| && |slaves[k].SM| == EC_MAXSM
    ensures var s, f := slaves[k], FinalList(slaves, packed)[k].FMMU;
            var u, nO, nI := s.FMMUunused, OutWindows(s), if s.Ibits > 0 then |SlaveWindows(s, Inputs)| else 0;
            && u + nO + nI <= |f|
            && (s.Obits > 0 ==> nO > 0) && (s.Ibits > 0 ==> nI > 0)
            && (forall i :: u <= i < u + nO ==> Configured(f[i], s.SM, 3, 2))
            && (forall i :: u + nO <= i < u + nO + nI ==> Configured(f[i], s.SM, 4, 1))
  {
    FinalParts(slaves, packed, k);
    OutWindowsAre(slaves[k]);
    hide *;
    var s, r := slaves[k], FinalList(slaves, packed)[k];
    var a := WindowsSet(s, Outputs, CursorAt(slaves, Outputs, packed, 0, k));
    var b := WindowsSet(s, Inputs, CursorAt(slaves, Inputs, packed, 8 * OutBytes(slaves, packed), k));
    var status := StatusSet(IoList(slaves, packed)[k], StatusAddress(slaves, packed, k));
    WindowsConfigured(s, Outputs, CursorAt(slaves, Outputs, packed, 0, k));
    WindowsConfigured(s, Inputs, CursorAt(slaves, Inputs, packed, 8 * OutBytes(slaves, packed), k));
    BitsOf(s);
    RestLast(a + b, status, Blanks(EC_MAXFMMU - r.FMMUunused));
    PartsConfigured(r.FMMU, s.FMMUunused, a, b, status + Blanks(EC_MAXFMMU - r.FMMUunused), s.SM);
  }

  lemma {:induction false} RestLast(a: seq<Fmmu>, b: seq<Fmmu>, c: seq<Fmmu>)
    ensures a + b + c == a + (b + c)
  {
  }

  lemma {:induction false} OutWindowsAre(s: IoSlave)
    requires |s.SM| == EC_MAXSM
    ensures OutWindows(s) == if s.Obits > 0 then |SlaveWindows(s, Outputs)| else 0
  {
  }

  // The data pointers

  /** The bits that a slave with so many bits of data has in the image: a slave of less than eight
      bits has just those, and every other one whole bytes. */
  function Width(bits: nat): nat {
    if bits < 8 then bits else 8 * ((bits + 7) / 8)
  }

  lemma {:induction false} PointedAt(s: IoSlave, dir: Direction, c: nat)
    requires Ready(s, dir) && Mappable(s, dir) && Bits(s, dir) > 0
    ensures var r := Mapped(s, dir, c);
            && DataEnd(c, Bits(s, dir)) == DataStart(c, Bits(s, dir)) + Width(Bits(s, dir))
            && (if dir.Outputs? && s.outputs.None? then
                  r.outputs.Some? && 8 * r.outputs.value + r.Ostartbit == DataStart(c, s.Obits)
                else r.outputs == s.outputs && r.Ostartbit == s.Ostartbit)
            && (if dir.Inputs? && s.inputs.None? then
                  r.inputs.Some? && 8 * r.inputs.value + r.Istartbit == DataStart(c, s.Ibits)
                else r.inputs == s.inputs && r.Istartbit == s.Istartbit)
            && r.mbxstatus == s.mbxstatus
  {
    hide SlaveFmmus;
    hide Windows;
    hide Supply;
    hide NextOfType;
    hide DataStart;
    DataWidth(c, Bits(s, dir));
  }

  lemma {:induction false} DataWidth(c: nat, bits: nat)
    ensures DataEnd(c, bits) == DataStart(c, bits) + Width(bits)
  {
  }

  /** What the pointers and bits of a slave say about its data and its status byte. */
  predicate HasBit(at: Option<nat>, startbit: nat, bits: nat, b: nat) {
    bits > 0 && at.Some? && 8 * at.value + startbit <= b < 8 * at.value + startbit + Width(bits)
  }

  /** The slave has no place in the image yet. */
  predicate NotMapped(s: IoSlave) {
    s.outputs.None? && s.inputs.None? && s.mbxstatus.None?
  }

  lemma {:induction false} BothPointers(s: IoSlave, cO: nat, cI: nat, b: nat)
    requires SlaveFits(s) && NotMapped(s)
    ensures var r := BothMapped(s, cO, cI);
            && (HasBit(r.outputs, r.Ostartbit, s.Obits, b)
                <==> s.Obits > 0 && DataStart(cO, s.Obits) <= b < DataEnd(cO, s.Obits))
            && (HasBit(r.inputs, r.Istartbit, s.Ibits, b)
                <==> s.Ibits > 0 && DataStart(cI, s.Ibits) <= b < DataEnd(cI, s.Ibits))
            && r.mbxstatus.None?
  {
    FitsBoth(s);
    FitsMapped(s, cO);
    BitsOf(s);
    hide SlaveFits;
    hide Ready;
    hide Mappable;
    hide DataStart;
    hide DataEnd;
    hide Width;
    if s.Obits > 0 {
      PointedAt(s, Outputs, cO);
      OutputsLeaveRest(s, cO);
    }
    var m := OutMapped(s, cO);
    if s.Ibits > 0 {
      PointedAt(m, Inputs, cI);
    }
    hide Mapped;
  }

  lemma {:induction false} OutputsLeaveRest(s: IoSlave, c: nat)
    requires Ready(s, Outputs) && Mappable(s, Outputs) && s.Obits > 0
    ensures var r := Mapped(s, Outputs, c);
            r.inputs == s.inputs && r.Istartbit == s.Istartbit && r.Ibits == s.Ibits && r.mbxstatus == s.mbxstatus
  {
    hide SlaveFmmus;
    hide Windows;
    hide Supply;
    hide NextOfType;
    hide DataStart;
  }

  lemma {:induction false} StatusPointer(s: IoSlave, at: nat, b: nat)
    requires |s.FMMU| == EC_MAXFMMU && s.mbxstatus.None?
    ensures var r := WithStatus(s, at);
            && r.outputs == s.outputs && r.Ostartbit == s.Ostartbit && r.inputs == s.inputs
               && r.Istartbit == s.Istartbit
            && (HasBit(r.mbxstatus, 0, 8, b) <==> s.mbx_l > 0 && s.FMMUunused < 4 && 8 * at <= b < 8 * at + 8)
  {
  }

  /** The pointers of slave `k` when the group is mapped for the first time. */
  lemma {:induction false} FinalPointers(slaves: seq<IoSlave>, packed: bool, k: nat, b: nat)
    requires |slaves| >= 1 && GroupFits(slaves) && 1 <= k < |slaves|
    requires NotMapped(slaves[k])
    ensures var s, r := slaves[k], FinalList(slaves, packed)[k];
            && (HasBit(r.outputs, r.Ostartbit, s.Obits, b) <==> IsOwn(slaves, Outputs, packed, k, b))
            && (HasBit(r.inputs, r.Istartbit, s.Ibits, b) <==> IsOwn(slaves, Inputs, packed, k, b))
            && (HasBit(r.mbxstatus, 0, 8, b) <==> IsStatus(slaves, packed, k, b))
  {
    var s := slaves[k];
    var cO := CursorAt(slaves, Outputs, packed, 0, k);
    var cI := CursorAt(slaves, Inputs, packed, 8 * OutBytes(slaves, packed), k);
    FitsBoth(s);
    BothTail(s, cO, cI);
    hide *;
    BitsOf(s);
    FinalSlave(slaves, packed, k);
    BothPointers(s, cO, cI, b);
    StatusPointer(BothMapped(s, cO, cI), StatusAddress(slaves, packed, k), b);
    OwnIs(slaves, Outputs, packed, k, b);
    OwnIs(slaves, Inputs, packed, k, b);
    StatusIs(slaves, packed, k, b);
  }

  // What the slave does with the image

  /** The FMMUs that mapping has set in the record `s`, which was `s0` before, agree with its data
      pointers: the slave takes exactly the bits at `outputs`, each through one active FMMU of type 2,
      and gives exactly those at `inputs` and at `mbxstatus`, each through one active FMMU of type 1. */
  ghost predicate ServedAsPointed(s0: IoSlave, s: IoSlave) {
    s0.FMMUunused <= |s.FMMU| && forall b: nat :: BitServed(s0, s, s.FMMU[s0.FMMUunused..], b)
  }

  ghost predicate BitServed(s0: IoSlave, s: IoSlave, f: seq<Fmmu>, b: nat) {
    && (if HasBit(s.outputs, s.Ostartbit, s0.Obits, b) then ServedOnce(f, 2, b) else NotServed(f, 2, b))
    && (if HasBit(s.inputs, s.Istartbit, s0.Ibits, b) || HasBit(s.mbxstatus, 0, 8, b) then ServedOnce(f, 1, b)
        else NotServed(f, 1, b))
  }

  lemma {:induction false} MappedIsServed(slaves: seq<IoSlave>, packed: bool, k: nat)
    requires |slaves| >= 1 && GroupFits(slaves) && 1 <= k < |slaves|
    requires NotMapped(slaves[k])
    ensures ServedAsPointed(slaves[k], FinalList(slaves, packed)[k])
  {
    hide BitServed;
    hide FinalList;
    hide GroupFits;
    var r := FinalList(slaves, packed)[k];
    BitIsServed(slaves, packed, k, 0);
    forall b: nat ensures BitServed(slaves[k], r, r.FMMU[slaves[k].FMMUunused..], b) {
      BitIsServed(slaves, packed, k, b);
    }
  }

  lemma {:induction false} BitIsServed(slaves: seq<IoSlave>, packed: bool, k: nat, b: nat)
    requires |slaves| >= 1 && GroupFits(slaves) && 1 <= k < |slaves|
    requires NotMapped(slaves[k])
    ensures var r := FinalList(slaves, packed)[k];
            slaves[k].FMMUunused <= |r.FMMU| && BitServed(slaves[k], r, r.FMMU[slaves[k].FMMUunused..], b)
  {
    SlaveServesItsBits(slaves, packed, k, b);
    FinalPointers(slaves, packed, k, b);
    hide IsOwn;
    hide IsStatus;
    hide ServedOnce;
    hide NotServed;
    hide HasBit;
    hide FinalList;
    hide GroupFits;
  }

  // Every bit has one owner

  datatype Kind = Output | Input | Status

  /** Bit `b` of the image belongs to the outputs, the inputs or the status byte of the slave. */
  predicate HasData(s0: IoSlave, s: IoSlave, kind: Kind, b: nat) {
    match kind
    case Output => HasBit(s.outputs, s.Ostartbit, s0.Obits, b)
    case Input => HasBit(s.inputs, s.Istartbit, s0.Ibits, b)
    case Status => HasBit(s.mbxstatus, 0, 8, b)
  }

  ghost predicate Owns(slaves: seq<IoSlave>, packed: bool, k: nat, kind: Kind, b: nat)
    requires GroupFits(slaves) && 1 <= k < |slaves|
  {
    match kind
    case Output => IsOwn(slaves, Outputs, packed, k, b)
    case Input => IsOwn(slaves, Inputs, packed, k, b)
    case Status => IsStatus(slaves, packed, k, b)
  }

  /** Outputs lie in the first bytes, inputs behind them and status bytes behind those. */
  lemma {:induction false} OwnedIn(slaves: seq<IoSlave>, packed: bool, k: nat, kind: Kind, b: nat)
    requires GroupFits(slaves) && 1 <= k < |slaves| && Owns(slaves, packed, k, kind, b)
    ensures var image := ImageOf(slaves, packed);
            match kind
            case Output => b < 8 * image.Obytes
            case Input => 8 * image.Obytes <= b < 8 * (image.Obytes + image.Ibytes)
            case Status =>
              8 * (image.Obytes + image.Ibytes) <= b < 8 * (image.Obytes + image.Ibytes + |image.mbxstatus|)
  {
    ImageSizes(slaves, packed);
    hide *;
    match kind
    case Output =>
      KindIs(slaves, packed, k, b);
      OwnIs(slaves, Outputs, packed, k, b);
      BitsOf(slaves[k]);
      OutputsEnd(slaves, packed, k);
    case Input =>
      KindIs(slaves, packed, k, b);
      OwnIs(slaves, Inputs, packed, k, b);
      BitsOf(slaves[k]);
      InputsEnd(slaves, packed, k);
      InputsBegin(slaves, packed, k);
    case Status =>
      KindIs(slaves, packed, k, b);
      StatusIs(slaves, packed, k, b);
      StatusIn(slaves, packed, k);
  }

  lemma {:induction false} KindIs(slaves: seq<IoSlave>, packed: bool, k: nat, b: nat)
    requires GroupFits(slaves) && 1 <= k < |slaves|
    ensures Owns(slaves, packed, k, Output, b) <==> IsOwn(slaves, Outputs, packed, k, b)
    ensures Owns(slaves, packed, k, Input, b) <==> IsOwn(slaves, Inputs, packed, k, b)
    ensures Owns(slaves, packed, k, Status, b) <==> IsStatus(slaves, packed, k, b)
  {
  }

  lemma {:induction false} ImageSizes(slaves: seq<IoSlave>, packed: bool)
    requires |slaves| >= 1 && GroupFits(slaves)
    ensures var image, io := ImageOf(slaves, packed), IoList(slaves, packed);
            && image.Obytes == OutBytes(slaves, packed) && image.Ibytes == InBytes(slaves, packed)
            && image.mbxstatus == StatusSlaves(io, |io|) && |io| == |slaves|
  {
    hide OutBytes;
    hide InBytes;
    hide IoList;
    hide StatusSlaves;
    hide GroupPacker;
    hide OutPacker;
    hide InPacker;
    hide StatusWkc;
    hide GroupFits;
  }

  lemma {:induction false} OutputsEnd(slaves: seq<IoSlave>, packed: bool, k: nat)
    requires 1 <= k < |slaves| && slaves[k].Obits > 0
    ensures EndBit(slaves, Outputs, packed, 0, k) <= 8 * OutBytes(slaves, packed)
  {
    CursorMoves(slaves, Outputs, packed, 0, k);
    CursorMonotone(slaves, Outputs, packed, 0, k + 1, |slaves|);
    hide CursorAt;
    hide DataStart;
    hide DataEnd;
  }

  lemma {:induction false} InputsBegin(slaves: seq<IoSlave>, packed: bool, k: nat)
    requires 1 <= k < |slaves| && slaves[k].Ibits > 0
    ensures var c := 8 * OutBytes(slaves, packed);
            c <= DataStart(CursorAt(slaves, Inputs, packed, c, k), slaves[k].Ibits)
  {
    var c := 8 * OutBytes(slaves, packed);
    hide OutBytes;
    CursorMonotone(slaves, Inputs, packed, c, 1, k);
    CursorStarts(slaves, Inputs, packed, c);
    CursorMoves(slaves, Inputs, packed, c, k);
    hide CursorAt;
    hide DataStart;
    hide DataEnd;
  }

  lemma {:induction false} StatusIn(slaves: seq<IoSlave>, packed: bool, k: nat)
    requires GroupFits(slaves) && 1 <= k < |slaves| && HasStatus(IoList(slaves, packed)[k])
    ensures var io := IoList(slaves, packed);
            StatusAddress(slaves, packed, k) < OutBytes(slaves, packed) + InBytes(slaves, packed)
              + |StatusSlaves(io, |io|)|
  {
    hide IoList;
    hide OutBytes;
    hide InBytes;
    hide GroupFits;
    StatusAtRank(IoList(slaves, packed), k, |slaves|);
  }

  lemma {:induction false} SameKindApart(slaves: seq<IoSlave>, packed: bool, j: nat, k: nat, kind: Kind, b: nat)
    requires GroupFits(slaves) && 1 <= j < k < |slaves| && Owns(slaves, packed, j, kind, b)
    ensures !Owns(slaves, packed, k, kind, b)
  {
    hide *;
    KindIs(slaves, packed, j, b);
    KindIs(slaves, packed, k, b);
    match kind
    case Output =>
      OwnApart(slaves, Outputs, packed, j, k, b);
    case Input =>
      OwnApart(slaves, Inputs, packed, j, k, b);
    case Status =>
      StatusIs(slaves, packed, j, b);
      StatusIs(slaves, packed, k, b);
      StatusAddresses(slaves, packed, j, k);
  }

  lemma {:induction false} StatusAddresses(slaves: seq<IoSlave>, packed: bool, j: nat, k: nat)
    requires GroupFits(slaves) && 1 <= j < k < |slaves|
    requires var s := IoList(slaves, packed)[j]; s.mbx_l > 0 && s.FMMUunused < 4
    ensures StatusAddress(slaves, packed, j) < StatusAddress(slaves, packed, k)
  {
    StatusBytesApart(slaves, packed, j, k);
  }

  lemma {:induction false} OwnApart(slaves: seq<IoSlave>, dir: Direction, packed: bool, j: nat, k: nat, b: nat)
    requires 1 <= j < k < |slaves|
    ensures !(IsOwn(slaves, dir, packed, j, b) && IsOwn(slaves, dir, packed, k, b))
  {
    hide OutBytes;
    hide StartBit;
    hide EndBit;
    if Bits(slaves[j], dir) > 0 && Bits(slaves[k], dir) > 0 {
      DataInOrder(slaves, dir, packed, if dir.Outputs? then 0 else 8 * OutBytes(slaves, packed), j, k);
    }
  }

  /** A bit of the image belongs to one slave at most, and there to its outputs, its inputs or its
      status byte. */
  lemma {:induction false} OneOwner(
    slaves: seq<IoSlave>, packed: bool, j: nat, x: Kind, k: nat, y: Kind, b: nat)
    requires GroupFits(slaves) && 1 <= j < |slaves| && 1 <= k < |slaves|
    requires Owns(slaves, packed, j, x, b) && Owns(slaves, packed, k, y, b)
    ensures j == k && x == y
  {
    hide *;
    OwnedIn(slaves, packed, j, x, b);
    OwnedIn(slaves, packed, k, y, b);
    if j < k {
      SameKindApart(slaves, packed, j, k, x, b);
    } else if k < j {
      SameKindApart(slaves, packed, k, j, x, b);
    }
  }

  /** A slave list mapped for the first time, in records of literal bits: inside the image, every bit
      has at most one owner. */
  ghost predicate OwnersApart(before: seq<IoSlave>, now: seq<IoSlave>, size: nat) {
    && |now| == |before|
    && (forall k, kind, b: nat :: 1 <= k < |now| && HasData(before[k], now[k], kind, b) ==> b < 8 * size)
    && forall j, x, k, y, b: nat ::
         1 <= j < |now| && 1 <= k < |now| && HasData(before[j], now[j], x, b) && HasData(before[k], now[k], y, b) ==>
         j == k && x == y
  }

  lemma {:induction false} MappedApart(slaves: seq<IoSlave>, packed: bool)
    requires |slaves| >= 1 && GroupFits(slaves) && forall k :: 1 <= k < |slaves| ==> NotMapped(slaves[k])
    ensures var image := ImageOf(slaves, packed);
            OwnersApart(slaves, FinalList(slaves, packed), image.Obytes + image.Ibytes + |image.mbxstatus|)
  {
    hide HasData;
    hide Owns;
    hide ImageOf;
    hide FinalList;
    hide GroupFits;
    hide NotMapped;
    var now := FinalList(slaves, packed);
    forall k, kind, b: nat | 1 <= k < |now| && HasData(slaves[k], now[k], kind, b)
      ensures Owns(slaves, packed, k, kind, b)
      ensures var image := ImageOf(slaves, packed); b < 8 * (image.Obytes + image.Ibytes + |image.mbxstatus|)
    {
      DataIsOwned(slaves, packed, k, kind, b);
      OwnedIn(slaves, packed, k, kind, b);
    }
    forall j, x, k, y, b: nat |
      1 <= j < |now| && 1 <= k < |now| && HasData(slaves[j], now[j], x, b) && HasData(slaves[k], now[k], y, b)
      ensures j == k && x == y
    {
      OneOwner(slaves, packed, j, x, k, y, b);
    }
  }

  lemma {:induction false} DataIsOwned(slaves: seq<IoSlave>, packed: bool, k: nat, kind: Kind, b: nat)
    requires |slaves| >= 1 && GroupFits(slaves) && 1 <= k < |slaves| && NotMapped(slaves[k])
    ensures HasData(slaves[k], FinalList(slaves, packed)[k], kind, b) <==> Owns(slaves, packed, k, kind, b)
  {
    FinalPointers(slaves, packed, k, b);
    hide HasBit;
    hide IsOwn;
    hide IsStatus;
    hide FinalList;
    hide GroupFits;
  }

  // Nothing is left free

  /** The bytes that slaves 1 to `n - 1` need, each rounded up. */
  function BytesOf(slaves: seq<IoSlave>, dir: Direction, n: nat): nat
    requires 1 <= n <= |slaves|
  {
    if n == 1 then 0 else BytesOf(slaves, dir, n - 1) + RoundedUp(Bits(slaves[n - 1], dir))
  }

  function RoundedUp(bits: nat): nat { (bits + 7) / 8 }

  lemma {:induction false} CursorIsTight(slaves: seq<IoSlave>, dir: Direction, c: nat, n: nat)
    requires 1 <= n <= |slaves| && c % 8 == 0
    ensures CursorAt(slaves, dir, false, c, n) == c + 8 * BytesOf(slaves, dir, n)
  {
    hide CursorBehind;
    hide RoundedUp;
    if n > 1 {
      CursorIsTight(slaves, dir, c, n - 1);
      BehindIsTight(c + 8 * BytesOf(slaves, dir, n - 1), Bits(slaves[n - 1], dir));
    }
  }

  lemma {:induction false} BehindIsTight(c: nat, bits: nat)
    requires c % 8 == 0
    ensures CursorBehind(c, bits, false) == c + 8 * RoundedUp(bits)
  {
  }

  /** Without packing, the image has exactly the bytes that its slaves need. */
  lemma {:induction false} ImageIsTight(slaves: seq<IoSlave>)
    requires |slaves| >= 1 && GroupFits(slaves)
    ensures var image := ImageOf(slaves, false);
            && image.Obytes == BytesOf(slaves, Outputs, |slaves|)
            && image.Ibytes == BytesOf(slaves, Inputs, |slaves|)
  {
    hide *;
    ImageSizes(slaves, false);
    SizesAre(slaves);
    CursorIsTight(slaves, Outputs, 0, |slaves|);
    CursorIsTight(slaves, Inputs, 8 * OutBytes(slaves, false), |slaves|);
    EightTimes(BytesOf(slaves, Outputs, |slaves|));
    EightTimes(OutBytes(slaves, false) + BytesOf(slaves, Inputs, |slaves|));
  }

  lemma {:induction false} EightTimes(n: nat)
    ensures (8 * n + 7) / 8 == n
  {
  }

  lemma {:induction false} SizesAre(slaves: seq<IoSlave>)
    requires |slaves| >= 1
    ensures OutBytes(slaves, false) == (CursorAt(slaves, Outputs, false, 0, |slaves|) + 7) / 8
    ensures var O := OutBytes(slaves, false);
            O + InBytes(slaves, false) == (CursorAt(slaves, Inputs, false, 8 * O, |slaves|) + 7) / 8
  {
    var O := OutBytes(slaves, false);
    CursorMonotone(slaves, Inputs, false, 8 * O, 1, |slaves|);
    CursorStarts(slaves, Inputs, false, 8 * O);
    hide CursorAt;
  }

  /** Packed, the bits of a slave of less than eight bits begin right behind those of the slave before, and
      the bytes of any other at the next byte. */
  lemma {:induction false} PackedIsTight(slaves: seq<IoSlave>, dir: Direction, c: nat, k: nat)
    requires 1 <= k && k + 1 < |slaves| && Bits(slaves[k], dir) > 0 && Bits(slaves[k + 1], dir) > 0
    ensures var end, start := EndBit(slaves, dir, true, c, k), StartBit(slaves, dir, true, c, k + 1);
            if Bits(slaves[k + 1], dir) < 8 then start == end else end <= start < end + 8 && start % 8 == 0
  {
  }
}
