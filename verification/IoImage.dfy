/** What the mapping of group 0 guarantees about the whole process image. */
module IoImage {
  import opened EcTypes
  import opened IoSegments
  import opened IoMapping
  import opened IoGroup

  // Segments

  lemma {:induction false} PadKeeps(p: Packer, c: nat)
    requires Fits(p) && Total(p) == c / 8
    ensures Fits(Pad(p, c)) && Total(Pad(p, c)) == (c + 7) / 8
    ensures forall final: seq<nat> :: Extends(final, Pad(p, c)) ==> Extends(final, p)
  {
    if c % 8 != 0 {
      AddPaddingKeeps(p);
      forall final: seq<nat> | Extends(final, AddPadding(p)) ensures Extends(final, p) {
        ExtendsBeforePadding(p, final);
      }
    }
  }

  /** The outputs' packer has seen exactly the output image. */
  lemma {:induction false} OutPackerFits(slaves: seq<IoSlave>, packed: bool)
    requires |slaves| >= 1
    ensures Fits(OutPacker(slaves, packed)) && Total(OutPacker(slaves, packed)) == OutBytes(slaves, packed)
  {
    PackerSeesImage(slaves, Outputs, packed, 0, Empty, |slaves|);
    PadKeeps(PackerAt(slaves, Outputs, packed, 0, Empty, |slaves|), OutEnd(slaves, packed));
    hide Fits;
    hide Pad;
  }

  lemma {:induction false} InPackerFits(slaves: seq<IoSlave>, packed: bool)
    requires |slaves| >= 1
    ensures Fits(InPacker(slaves, packed))
    ensures Total(InPacker(slaves, packed)) == OutBytes(slaves, packed) + InBytes(slaves, packed)
  {
    OutPackerFits(slaves, packed);
    var p := OutPacker(slaves, packed).(wkc := 0);
    var c := 8 * OutBytes(slaves, packed);
    assert Fits(p) && Total(p) == c / 8;
    hide Fits;
    hide Total;
    hide Pad;
    hide OutPacker;
    PackerSeesImage(slaves, Inputs, packed, c, p, |slaves|);
    PadKeeps(PackerAt(slaves, Inputs, packed, c, p, |slaves|), InEnd(slaves, packed));
    CursorMonotone(slaves, Inputs, packed, c, 1, |slaves|);
    CursorStarts(slaves, Inputs, packed, c);
  }

  lemma {:induction false} StatusPackerKeeps(slaves: seq<IoSlave>, p: Packer, n: nat)
    requires 1 <= n <= |slaves| && SegmentsFit(p)
    ensures var q := StatusPacker(slaves, p, n);
            SegmentsFit(q) && Total(q) == Total(p) + |StatusSlaves(slaves, n)|
    ensures forall final: seq<nat> :: Extends(final, StatusPacker(slaves, p, n)) ==> Extends(final, p)
  {
    hide SegmentsFit;
    hide Total;
    hide Extends;
    hide AddStatus;
    if n > 1 {
      StatusPackerKeeps(slaves, p, n - 1);
      AddStatusKeeps(StatusPacker(slaves, p, n - 1), if HasStatus(slaves[n - 1]) then 1 else 0);
    }
  }

  lemma {:induction false} FitsSegments(p: Packer)
    requires Fits(p)
    ensures SegmentsFit(p)
  {
  }

  /** The segments cover the whole image: outputs, inputs and mailbox status bytes. */
  lemma {:induction false} SegmentsCoverImage(slaves: seq<IoSlave>, packed: bool)
    requires |slaves| >= 1 && GroupFits(slaves)
    ensures var image := ImageOf(slaves, packed);
            Sum(image.segments) == image.Obytes + image.Ibytes + |image.mbxstatus|
  {
    hide OutPacker;
    hide InPacker;
    hide OutBytes;
    hide InBytes;
    hide IoList;
    hide StatusPacker;
    hide StatusSlaves;
    hide StatusWkc;
    InPackerFits(slaves, packed);
    FitsSegments(InPacker(slaves, packed));
    StatusPackerKeeps(IoList(slaves, packed), InPacker(slaves, packed), |slaves|);
    var q := GroupPacker(slaves, packed);
    SumConcat(q.closed, [q.open]);
    assert Sum([q.open]) == q.open;
  }

  /** Every segment fits its datagram; the first one leaves room for the DC datagram. */
  lemma {:induction false} SegmentsFitFrames(slaves: seq<IoSlave>, packed: bool, k: nat)
    requires |slaves| >= 1 && GroupFits(slaves)
    requires k < |ImageOf(slaves, packed).segments|
    ensures ImageOf(slaves, packed).segments[k] <= EC_MAXLRWDATA - (if k == 0 then EC_FIRSTDCDATAGRAM else 0)
  {
    hide OutPacker;
    hide InPacker;
    hide IoList;
    hide StatusPacker;
    hide Fits;
    InPackerFits(slaves, packed);
    FitsSegments(InPacker(slaves, packed));
    StatusPackerKeeps(IoList(slaves, packed), InPacker(slaves, packed), |slaves|);
  }

  // Working counters

  lemma {:induction false} ExtendsEarlier(
    slaves: seq<IoSlave>, dir: Direction, packed: bool, c: nat, p: Packer, m: nat, n: nat, final: seq<nat>)
    requires 1 <= m <= n <= |slaves| && 0 < p.max <= EC_MAXLRWDATA && Fits(p) && Total(p) == c / 8
    requires Extends(final, PackerAt(slaves, dir, packed, c, p, n))
    ensures Extends(final, PackerAt(slaves, dir, packed, c, p, m))
    decreases n - m
  {
    hide Fits;
    hide Total;
    hide Extends;
    hide AddImage;
    hide Grown;
    if m < n {
      PackerSeesImage(slaves, dir, packed, c, p, n - 1);
      if Bits(slaves[n - 1], dir) > 0 {
        ExtendsBefore(PackerAt(slaves, dir, packed, c, p, n - 1), Grown(slaves, dir, packed, c, n - 1), final);
      }
      ExtendsEarlier(slaves, dir, packed, c, p, m, n - 1, final);
    }
  }

  lemma {:induction false} OpenExtends(p: Packer)
    ensures Extends(Segments(p), p)
  {
  }

  lemma {:induction false} ExtendsWkc(final: seq<nat>, p: Packer, wkc: nat)
    requires Extends(final, p)
    ensures Extends(final, p.(wkc := wkc))
  {
  }

  /** The final segments extend what each phase of the mapping has packed. */
  lemma {:induction false} FinalExtends(slaves: seq<IoSlave>, packed: bool)
    requires |slaves| >= 1 && GroupFits(slaves)
    ensures var final := ImageOf(slaves, packed).segments;
            && Extends(final, PackerAt(slaves, Outputs, packed, 0, Empty, |slaves|))
            && Extends(final, PackerAt(slaves, Inputs, packed, 8 * OutBytes(slaves, packed),
                                       OutPacker(slaves, packed).(wkc := 0), |slaves|))
            && Extends(final, OutPacker(slaves, packed))
  {
    hide Extends;
    hide Segments;
    hide Fits;
    hide Total;
    hide IoList;
    hide StatusPacker;
    hide StatusSlaves;
    hide StatusWkc;
    hide Pad;
    var final := ImageOf(slaves, packed).segments;
    var c := 8 * OutBytes(slaves, packed);
    var p0 := PackerAt(slaves, Outputs, packed, 0, Empty, |slaves|);
    var p1 := OutPacker(slaves, packed);
    var p2 := PackerAt(slaves, Inputs, packed, c, p1.(wkc := 0), |slaves|);
    var p3 := InPacker(slaves, packed);
    OpenExtends(GroupPacker(slaves, packed));
    InPackerFits(slaves, packed);
    FitsSegments(p3);
    StatusPackerKeeps(IoList(slaves, packed), p3, |slaves|);
    assert Extends(final, p3);
    OutPackerFits(slaves, packed);
    StartsFit(p1, c);
    PackerSeesImage(slaves, Inputs, packed, c, p1.(wkc := 0), |slaves|);
    PadKeeps(p2, InEnd(slaves, packed));
    assert Extends(final, p2);
    ExtendsEarlier(slaves, Inputs, packed, c, p1.(wkc := 0), 1, |slaves|, final);
    PackerStarts(slaves, Inputs, packed, c, p1.(wkc := 0));
    ExtendsWkc(final, p1.(wkc := 0), p1.wkc);
    assert Extends(final, p1);
    EmptyFits();
    PackerSeesImage(slaves, Outputs, packed, 0, Empty, |slaves|);
    PadKeeps(p0, OutEnd(slaves, packed));
  }

  /** Where the group record says that the inputs begin, there the outputs end: so many segments and
      bytes of the next one hold exactly the outputs. */
  lemma {:induction false} InputsBehindOutputs(slaves: seq<IoSlave>, packed: bool)
    requires |slaves| >= 1 && GroupFits(slaves)
    ensures var image := ImageOf(slaves, packed);
            && image.Isegment < |image.segments| && image.Ioffset <= image.segments[image.Isegment]
            && Sum(image.segments[..image.Isegment]) + image.Ioffset == image.Obytes
  {
    FinalExtends(slaves, packed);
    OutPackerFits(slaves, packed);
    hide Fits;
    hide OutPacker;
    hide InPacker;
    hide OutBytes;
    hide InBytes;
    hide GroupPacker;
    hide IoList;
    hide StatusSlaves;
    hide StatusWkc;
    hide PackerAt;
    hide GroupFits;
  }

  lemma {:induction false} EmptyFits()
    ensures Fits(Empty) && Total(Empty) == 0
  {
  }

  lemma {:induction false} StartsFit(p: Packer, c: nat)
    requires Fits(p) && 8 * Total(p) == c
    ensures Fits(p.(wkc := 0)) && Total(p.(wkc := 0)) == c / 8
  {
  }

  /** Without packing every slave starts at a byte boundary, and adds at least one byte. */
  lemma {:induction false} UnpackedGrows(slaves: seq<IoSlave>, dir: Direction, c: nat, n: nat)
    requires 1 <= n <= |slaves| && c % 8 == 0
    ensures CursorAt(slaves, dir, false, c, n) % 8 == 0
    ensures n < |slaves| && Bits(slaves[n], dir) > 0 ==> Grown(slaves, dir, false, c, n) > 0
  {
    hide CursorBehind;
    if n > 1 {
      UnpackedGrows(slaves, dir, c, n - 1);
      BehindUnpacked(CursorAt(slaves, dir, false, c, n - 1), Bits(slaves[n - 1], dir));
    }
    if n < |slaves| {
      BehindUnpacked(CursorAt(slaves, dir, false, c, n), Bits(slaves[n], dir));
    }
  }

  lemma {:induction false} BehindUnpacked(c: nat, bits: nat)
    requires c % 8 == 0
    ensures CursorBehind(c, bits, false) % 8 == 0
    ensures bits > 0 ==> CursorBehind(c, bits, false) / 8 > c / 8
  {
  }

  /** Of the slaves before number `n`, how many pairs there are of a slave and a segment that
      holds data of the slave. */
  function Shares(segments: seq<nat>, slaves: seq<IoSlave>, dir: Direction, c: nat, n: nat): nat
    requires 1 <= n <= |slaves|
  {
    if n == 1 then 0
    else
      Shares(segments, slaves, dir, c, n - 1)
      + (if Bits(slaves[n - 1], dir) == 0 then 0
         else Touched(segments, 0, CursorAt(slaves, dir, false, c, n - 1) / 8, CursorAt(slaves, dir, false, c, n) / 8))
  }

  /** Slaves before number `n` whose data are cut right behind a segment that is exactly full. */
  function Overcounted(slaves: seq<IoSlave>, dir: Direction, c: nat, p: Packer, n: nat): nat
    requires 1 <= n <= |slaves| && 0 < p.max <= EC_MAXLRWDATA
  {
    if n == 1 then 0
    else
      Overcounted(slaves, dir, c, p, n - 1)
      + (if Bits(slaves[n - 1], dir) > 0
            && FullBeforeLarge(PackerAt(slaves, dir, false, c, p, n - 1), Grown(slaves, dir, false, c, n - 1))
         then 1 else 0)
  }

  lemma {:induction false} WkcCountsShares(
    final: seq<nat>, slaves: seq<IoSlave>, dir: Direction, c: nat, p: Packer, n: nat)
    requires 1 <= n <= |slaves| && 0 < p.max <= EC_MAXLRWDATA && Fits(p) && Total(p) == c / 8 && c % 8 == 0
    requires Extends(final, PackerAt(slaves, dir, false, c, p, n))
    ensures Shares(final, slaves, dir, c, n) + Overcounted(slaves, dir, c, p, n)
            == PackerAt(slaves, dir, false, c, p, n).wkc - p.wkc
  {
    hide Touched;
    hide Fits;
    hide AddImage;
    hide FullBeforeLarge;
    hide CursorBehind;
    hide Extends;
    if n > 1 {
      ExtendsEarlier(slaves, dir, false, c, p, n - 1, n, final);
      WkcCountsShares(final, slaves, dir, c, p, n - 1);
      if Bits(slaves[n - 1], dir) > 0 {
        UnpackedGrows(slaves, dir, c, n - 1);
        CursorMoves(slaves, dir, false, c, n - 1);
        PackerSeesImage(slaves, dir, false, c, p, n - 1);
        hide CursorAt;
        WkcCountsTouchedSegments(PackerAt(slaves, dir, false, c, p, n - 1), Grown(slaves, dir, false, c, n - 1), final);
      }
    }
  }

  /** The expected working counter, without packing: each slave counts, per direction, once for
      every segment that holds data of it. The code counts one too many for every slave whose
      data are cut behind a full segment, so it is right if and only if there is none. */
  lemma {:induction false} ExpectedWkcIsExact(slaves: seq<IoSlave>)
    requires |slaves| >= 1 && GroupFits(slaves)
    ensures var image := ImageOf(slaves, false);
            var c := 8 * image.Obytes;
            var writers := Shares(image.segments, slaves, Outputs, 0, |slaves|);
            var readers := Shares(image.segments, slaves, Inputs, c, |slaves|);
            var overW := Overcounted(slaves, Outputs, 0, Empty, |slaves|);
            var overR := Overcounted(slaves, Inputs, c, OutPacker(slaves, false).(wkc := 0), |slaves|);
            var status := StatusWkc(IoList(slaves, false), |slaves|);
            && image.outputsWKC == writers + overW
            && image.inputsWKC == readers + overR + status
            && (2 * image.outputsWKC + image.inputsWKC == 2 * writers + readers + status <==> overW == 0 && overR == 0)
  {
    hide Fits;
    hide Total;
    hide Extends;
    hide IoList;
    hide GroupPacker;
    hide StatusWkc;
    hide StatusSlaves;
    hide Shares;
    hide Overcounted;
    hide PackerAt;
    hide CursorAt;
    hide OutBytes;
    hide InBytes;
    var final := ImageOf(slaves, false).segments;
    var c := 8 * OutBytes(slaves, false);
    FinalExtends(slaves, false);
    EmptyFits();
    WkcCountsShares(final, slaves, Outputs, 0, Empty, |slaves|);
    OutPackerFits(slaves, false);
    StartsFit(OutPacker(slaves, false), c);
    WkcCountsShares(final, slaves, Inputs, c, OutPacker(slaves, false).(wkc := 0), |slaves|);
    NoPadding(slaves);
    hide OutPacker;
    hide InPacker;
  }

  /** A slave with `n` output bytes, which one sync manager supplies. */
  function OutputSlave(n: nat): IoSlave {
    IoSlave(8 * n, n, None, 0, 0, 0, None, 0, 0, None,
            [SyncManager(0x1000, n, 3)] + seq(EC_MAXSM - 1, i => SyncManager(0, 0, 0)),
            seq(EC_MAXFMMU, i => BlankFmmu), 0)
  }

  lemma {:induction false} OutputSlaveFits(n: nat)
    requires 0 < n < 0x1000
    ensures SlaveFits(OutputSlave(n))
  {
    var s := OutputSlave(n);
    SupplySkips(s.SM, 3, 1, EC_MAXSM);
    SupplySkips(s.SM, 4, 0, EC_MAXSM);
    assert Supply(s.SM, 3, 0) == n && Supply(s.SM, 4, 0) == 0;
    var (e, c) := RunEnd(s.SM, 3, 8 * n, 0, n);
    assert (e, c) == (0, n);
    assert |SlaveWindows(s, Outputs)| == 1;
  }

  /** A group whose counter is wrong: the first slave fills the first segment, the second one fits
      no segment of that size and is cut behind it. Both slaves write in one segment each, and
      the counter expects three. */
  lemma {:induction false} OvercountHappens() returns (slaves: seq<IoSlave>)
    ensures |slaves| == 3 && GroupFits(slaves)
    ensures Overcounted(slaves, Outputs, 0, Empty, 3) == 1
    ensures var image := ImageOf(slaves, false);
            && Shares(image.segments, slaves, Outputs, 0, 3) == 2
            && image.outputsWKC == 3 && image.inputsWKC == 0 && image.mbxstatus == []
  {
    hide SlaveFits;
    hide OutputSlave;
    hide PackerAt;
    hide CursorAt;
    hide Shares;
    hide Overcounted;
    hide IoList;
    hide GroupPacker;
    hide OutBytes;
    hide InBytes;
    hide StatusSlaves;
    hide StatusWkc;
    slaves := [OutputSlave(0), OutputSlave(1466), OutputSlave(1467)];
    OutputSlaveFits(1466);
    OutputSlaveFits(1467);
    OvercountPacked(slaves);
    NoPadding(slaves);
    ExpectedWkcIsExact(slaves);
    OvercountQuiet(slaves);
  }

  lemma {:induction false} OvercountPacked(slaves: seq<IoSlave>)
    requires slaves == [OutputSlave(0), OutputSlave(1466), OutputSlave(1467)]
    ensures PackerAt(slaves, Outputs, false, 0, Empty, 3).wkc == 3 && Overcounted(slaves, Outputs, 0, Empty, 3) == 1
    ensures forall c: nat, p: Packer :: 0 < p.max <= EC_MAXLRWDATA ==> PackerAt(slaves, Inputs, false, c, p, 3) == p
    ensures slaves[1].mbx_l == slaves[2].mbx_l == 0
  {
    assert CursorAt(slaves, Outputs, false, 0, 2) == 8 * 1466;
    assert CursorAt(slaves, Outputs, false, 0, 3) == 8 * 2933;
    assert PackerAt(slaves, Outputs, false, 0, Empty, 2) == Packer([], 1466, 1466, 1);
    assert PackerAt(slaves, Outputs, false, 0, Empty, 3).wkc == 3;
    assert Overcounted(slaves, Outputs, 0, Empty, 1) == 0 && PackerAt(slaves, Outputs, false, 0, Empty, 1) == Empty;
    assert Overcounted(slaves, Outputs, 0, Empty, 2) == 0 && Grown(slaves, Outputs, false, 0, 2) == 1467;
    forall c: nat, p: Packer | 0 < p.max <= EC_MAXLRWDATA ensures PackerAt(slaves, Inputs, false, c, p, 3) == p {
      assert PackerAt(slaves, Inputs, false, c, p, 2) == p;
    }
  }

  lemma {:induction false} OvercountQuiet(slaves: seq<IoSlave>)
    requires |slaves| == 3 && GroupFits(slaves) && slaves[1].mbx_l == slaves[2].mbx_l == 0
    ensures var io := IoList(slaves, false); StatusWkc(io, 3) == 0 && StatusSlaves(io, 3) == []
  {
    IoKeepsMailbox(slaves, false, 1);
    IoKeepsMailbox(slaves, false, 2);
    hide GroupFits;
    hide IoList;
    var io := IoList(slaves, false);
    assert !HasStatus(io[1]) && !HasStatus(io[2]);
    hide HasStatus;
    assert StatusWkc(io, 1) == 0 && StatusSlaves(io, 1) == [];
    StatusNone(io, 1);
    StatusNone(io, 2);
  }

  lemma {:induction false} StatusNone(slaves: seq<IoSlave>, n: nat)
    requires 1 <= n < |slaves| && !HasStatus(slaves[n])
    ensures StatusSlaves(slaves, n + 1) == StatusSlaves(slaves, n) && StatusWkc(slaves, n + 1) == StatusWkc(slaves, n)
  {
    assert StatusSlaves(slaves, n) + [] == StatusSlaves(slaves, n);
  }

  /** A slave without process data, with a mailbox of `mbx_l` bytes or none. */
  function QuietSlave(mbx_l: nat): IoSlave {
    IoSlave(0, 0, None, 0, 0, 0, None, 0, mbx_l, None,
            seq(EC_MAXSM, i => SyncManager(0, 0, 0)), seq(EC_MAXFMMU, i => BlankFmmu), 0)
  }

  lemma {:induction false} QuietSlaveFits(mbx_l: nat)
    ensures SlaveFits(QuietSlave(mbx_l))
  {
    SupplySkips(QuietSlave(mbx_l).SM, 3, 0, EC_MAXSM);
    SupplySkips(QuietSlave(mbx_l).SM, 4, 0, EC_MAXSM);
  }

  /** Where nothing is mapped, the slaves stay as they are. */
  lemma {:induction false} QuietList(slaves: seq<IoSlave>, k: nat)
    requires GroupFits(slaves) && 1 <= k < |slaves| && slaves[k].Obits == slaves[k].Ibits == 0
    ensures IoList(slaves, false)[k] == slaves[k]
  {
    hide GroupFits;
    GroupMappable(slaves, false);
    DirectionListAt(slaves, Outputs, false, 0, |slaves|, k);
    DirectionListAt(OutList(slaves, false), Inputs, false, 8 * OutBytes(slaves, false), |slaves|, k);
  }

  /** Mapping again after the slaves have changed: first slave 1 has a mailbox, and then slave 2.
      The table is written behind its old entry, and still names slave 1. */
  lemma {:induction false} RemappingMisleads(room: seq<nat>) returns (first: seq<IoSlave>, second: seq<IoSlave>)
    requires |room| >= 2
    ensures |first| == |second| == 3 && GroupFits(first) && GroupFits(second)
    ensures ImageOf(first, false).mbxstatus == [1] && ImageOf(second, false).mbxstatus == [2]
    ensures var table := Spliced(room, 0, [1]);
            table[..1] == [1] && Spliced(table, 1, [2])[..1] == [1]
  {
    var none, mail := QuietSlave(0), QuietSlave(64);
    first, second := [none, mail, none], [none, none, mail];
    QuietSlaveFits(0);
    QuietSlaveFits(64);
    hide SlaveFits;
    QuietList(first, 1);
    QuietList(first, 2);
    QuietList(second, 1);
    QuietList(second, 2);
    var a, b := IoList(first, false), IoList(second, false);
    hide IoList;
    assert StatusSlaves(a, 1) == [] && StatusSlaves(a, 2) == [1] && StatusSlaves(a, 3) == [1];
    assert StatusSlaves(b, 1) == [] && StatusSlaves(b, 2) == [] && StatusSlaves(b, 3) == [2];
  }

  lemma {:induction false} NoPadding(slaves: seq<IoSlave>)
    requires |slaves| >= 1
    ensures OutPacker(slaves, false) == PackerAt(slaves, Outputs, false, 0, Empty, |slaves|)
    ensures InPacker(slaves, false)
            == PackerAt(slaves, Inputs, false, 8 * OutBytes(slaves, false),
                        OutPacker(slaves, false).(wkc := 0), |slaves|)
  {
    hide PackerAt;
    hide CursorAt;
    UnpackedGrows(slaves, Outputs, 0, |slaves|);
    UnpackedGrows(slaves, Inputs, 8 * OutBytes(slaves, false), |slaves|);
  }

  /** A slave whose data fit the limit in force lies in one segment: no boundary cuts it. */
  lemma {:induction false} FittingSlaveIsNotCut(slaves: seq<IoSlave>, dir: Direction, n: nat)
    requires |slaves| >= 1 && GroupFits(slaves) && 1 <= n < |slaves| && Bits(slaves[n], dir) > 0
    requires var (c, p) := PhaseStart(slaves, dir);
             Grown(slaves, dir, false, c, n) <= PackerAt(slaves, dir, false, c, p, n).max
    ensures var c := PhaseStart(slaves, dir).0;
            Touched(ImageOf(slaves, false).segments, 0,
                    CursorAt(slaves, dir, false, c, n) / 8, CursorAt(slaves, dir, false, c, n + 1) / 8) == 1
  {
    hide Touched;
    hide Extends;
    hide ImageOf;
    hide Fits;
    hide Total;
    hide OutBytes;
    hide OutPacker;
    hide PackerAt;
    var final := ImageOf(slaves, false).segments;
    var (c, p) := PhaseStart(slaves, dir);
    FinalExtends(slaves, false);
    EmptyFits();
    OutPackerFits(slaves, false);
    StartsFit(OutPacker(slaves, false), 8 * OutBytes(slaves, false));
    assert Fits(p) && Total(p) == c / 8 && Extends(final, PackerAt(slaves, dir, false, c, p, |slaves|));
    FittingIsNotCut(slaves, dir, c, p, n, final);
  }

  lemma {:induction false} FittingIsNotCut(
    slaves: seq<IoSlave>, dir: Direction, c: nat, p: Packer, n: nat, final: seq<nat>)
    requires 1 <= n < |slaves| && Bits(slaves[n], dir) > 0
    requires 0 < p.max <= EC_MAXLRWDATA && Fits(p) && Total(p) == c / 8 && c % 8 == 0
    requires Extends(final, PackerAt(slaves, dir, false, c, p, |slaves|))
    requires Grown(slaves, dir, false, c, n) <= PackerAt(slaves, dir, false, c, p, n).max
    ensures Touched(final, 0, CursorAt(slaves, dir, false, c, n) / 8, CursorAt(slaves, dir, false, c, n + 1) / 8) == 1
  {
    hide Touched;
    hide Extends;
    hide Fits;
    hide Total;
    hide AddImage;
    hide CursorBehind;
    ExtendsEarlier(slaves, dir, false, c, p, n + 1, |slaves|, final);
    UnpackedGrows(slaves, dir, c, n);
    CursorMoves(slaves, dir, false, c, n);
    PackerSeesImage(slaves, dir, false, c, p, n);
    var q, diff := PackerAt(slaves, dir, false, c, p, n), Grown(slaves, dir, false, c, n);
    assert PackerAt(slaves, dir, false, c, p, n + 1) == AddImage(q, diff);
    hide PackerAt;
    hide CursorAt;
    WkcCountsTouchedSegments(q, diff, final);
    FittingImageIsNotCut(q, diff);
  }

  /** Where the mapping of a direction starts: at which bit, and with which segments. */
  function PhaseStart(slaves: seq<IoSlave>, dir: Direction): (r: (nat, Packer))
    requires |slaves| >= 1
    ensures 0 < r.1.max <= EC_MAXLRWDATA && r.0 % 8 == 0
  {
    if dir.Outputs? then (0, Empty) else (8 * OutBytes(slaves, false), OutPacker(slaves, false).(wkc := 0))
  }

  // FMMU windows

  /** Which FMMUs a slave gets depends on its sync managers and bits, not on its other fields. */
  lemma {:induction false} SameWindows(a: IoSlave, b: IoSlave, dir: Direction, c: nat)
    requires Ready(a, dir) && Ready(b, dir) && a.SM == b.SM && Bits(a, dir) == Bits(b, dir) > 0
    ensures SlaveFmmus(a, dir, c) == SlaveFmmus(b, dir, c)
  {
    hide Windows;
    hide Supply;
    hide ByteFmmus;
    hide BitFmmu;
  }

  /** The FMMUs that mapping sets are in the record afterwards, and earlier ones stay. */
  lemma {:induction false} MappedSets(s: IoSlave, dir: Direction, c: nat)
    requires Ready(s, dir) && Mappable(s, dir) && Bits(s, dir) > 0
    ensures var r, u, n := Mapped(s, dir, c), s.FMMUunused, |SlaveFmmus(s, dir, c)|;
            && r.FMMU[u..u + n] == SlaveFmmus(s, dir, c) && r.FMMU[..u] == s.FMMU[..u]
            && r.FMMUunused == u + n && |r.FMMU| == |s.FMMU| && r.SM == s.SM
            && r.Ibits == s.Ibits && r.Obits == s.Obits && r.Ibytes == s.Ibytes
  {
    hide Windows;
    hide Supply;
    hide SlaveFmmus;
    var f, u := SlaveFmmus(s, dir, c), s.FMMUunused;
    var r := Set(s.FMMU, u, f, |f|);
    assert r[u..u + |f|] == f[..|f|];
  }

  ghost function OutMapped(s: IoSlave, c: nat): IoSlave
    requires SlaveFits(s)
  {
    FitsMapped(s, c);
    if s.Obits > 0 then Mapped(s, Outputs, c) else s
  }

  ghost function BothMapped(s: IoSlave, cO: nat, cI: nat): IoSlave
    requires SlaveFits(s)
  {
    FitsMapped(s, cO);
    if s.Ibits > 0 then Mapped(OutMapped(s, cO), Inputs, cI) else OutMapped(s, cO)
  }

  /** One slave through both directions: its output windows, then its input windows. */
  lemma {:induction false} BothWindowsSet(s: IoSlave, cO: nat, cI: nat)
    requires SlaveFits(s)
    ensures var r, u := BothMapped(s, cO, cI), s.FMMUunused;
            var nO := OutWindows(s);
            && |r.FMMU| == EC_MAXFMMU && u + nO <= r.FMMUunused <= EC_MAXFMMU
            && (s.Obits > 0 ==> r.FMMU[u..u + nO] == SlaveFmmus(s, Outputs, cO))
            && (s.Ibits > 0 ==> r.FMMU[u + nO..r.FMMUunused] == SlaveFmmus(s, Inputs, cI))
  {
    hide Windows;
    hide Supply;
    hide SlaveFmmus;
    hide NextOfType;
    hide Mapped;
    FitsMapped(s, cO);
    var m := OutMapped(s, cO);
    if s.Obits > 0 {
      MappedSets(s, Outputs, cO);
    }
    if s.Ibits > 0 {
      MappedSets(m, Inputs, cI);
      SameWindows(s, m, Inputs, cI);
      var r, u, nO := BothMapped(s, cO, cI), s.FMMUunused, OutWindows(s);
      assert r.FMMU[u..u + nO] == r.FMMU[..u + nO][u..] == m.FMMU[..u + nO][u..] == m.FMMU[u..u + nO];
    }
  }

  /** The address of the status byte of slave `k`: behind the inputs, in the order of the slaves. */
  ghost function StatusAddress(slaves: seq<IoSlave>, packed: bool, k: nat): nat
    requires GroupFits(slaves) && 1 <= k <= |slaves|
  {
    OutBytes(slaves, packed) + InBytes(slaves, packed) + |StatusSlaves(IoList(slaves, packed), k)|
  }

  /** Slave `k` of the final list: both directions mapped, and perhaps a status byte. */
  lemma {:induction false} FinalSlave(slaves: seq<IoSlave>, packed: bool, k: nat)
    requires |slaves| >= 1 && GroupFits(slaves) && 1 <= k < |slaves|
    ensures var cO := CursorAt(slaves, Outputs, packed, 0, k);
            var cI := CursorAt(slaves, Inputs, packed, 8 * OutBytes(slaves, packed), k);
            && IoList(slaves, packed)[k] == BothMapped(slaves[k], cO, cI)
            && FinalList(slaves, packed)[k]
               == WithStatus(BothMapped(slaves[k], cO, cI), StatusAddress(slaves, packed, k))
  {
    hide Mapped;
    hide SlaveFits;
    hide OutBytes;
    hide InBytes;
    hide CursorAt;
    hide StatusList;
    hide StatusSlaves;
    hide WithStatus;
    hide Ready;
    hide Mappable;
    var c := 8 * OutBytes(slaves, packed);
    var mid := OutList(slaves, packed);
    IoListAt(slaves, packed, k);
    StatusListAt(IoList(slaves, packed), OutBytes(slaves, packed) + InBytes(slaves, packed), |slaves|, k);
  }

  lemma {:induction false} IoListAt(slaves: seq<IoSlave>, packed: bool, k: nat)
    requires |slaves| >= 1 && GroupFits(slaves) && 1 <= k < |slaves|
    ensures IoList(slaves, packed)[k]
            == BothMapped(slaves[k], CursorAt(slaves, Outputs, packed, 0, k),
                          CursorAt(slaves, Inputs, packed, 8 * OutBytes(slaves, packed), k))
  {
    hide Mapped;
    hide SlaveFits;
    hide OutBytes;
    hide Ready;
    hide Mappable;
    var c := 8 * OutBytes(slaves, packed);
    var mid := OutList(slaves, packed);
    GroupMappable(slaves, packed);
    DirectionListAt(slaves, Outputs, packed, 0, |slaves|, k);
    DirectionListAt(mid, Inputs, packed, c, |slaves|, k);
    CursorsDecide(mid, slaves, Inputs, packed, c, k);
    hide CursorAt;
    hide DirectionList;
  }

  lemma {:induction false} StatusListAt(slaves: seq<IoSlave>, logAddr: nat, n: nat, k: nat)
    requires 1 <= k < n <= |slaves| && forall j :: 1 <= j < |slaves| ==> |slaves[j].FMMU| == EC_MAXFMMU
    ensures StatusList(slaves, logAddr, n)[k] == WithStatus(slaves[k], logAddr + |StatusSlaves(slaves, k)|)
  {
    hide WithStatus;
    hide StatusSlaves;
    if k < n - 1 {
      StatusListAt(slaves, logAddr, n - 1, k);
    }
  }

  lemma {:induction false} FinalWindows(slaves: seq<IoSlave>, packed: bool, k: nat, cO: nat, cI: nat)
    requires |slaves| >= 1 && GroupFits(slaves) && 1 <= k < |slaves| && SlaveFits(slaves[k])
    requires cO == CursorAt(slaves, Outputs, packed, 0, k)
    requires cI == CursorAt(slaves, Inputs, packed, 8 * OutBytes(slaves, packed), k)
    ensures var s, f := slaves[k], FinalList(slaves, packed)[k].FMMU;
            var u, nO := s.FMMUunused, OutWindows(s);
            && (s.Obits > 0 ==> u + nO <= |f| && f[u..u + nO] == SlaveFmmus(s, Outputs, cO))
            && (s.Ibits > 0 ==> var nI := |SlaveFmmus(s, Inputs, cI)|;
                                u + nO + nI <= |f| && f[u + nO..u + nO + nI] == SlaveFmmus(s, Inputs, cI))
  {
    hide Ready;
    hide Mappable;
    hide Mapped;
    hide CursorAt;
    hide OutBytes;
    hide SlaveFmmus;
    hide SlaveWindows;
    hide FinalList;
    hide IoList;
    hide BothMapped;
    hide GroupFits;
    hide WithStatus;
    var s := slaves[k];
    var r := BothMapped(s, cO, cI);
    FitsBoth(s);
    BothWindowsSet(s, cO, cI);
    hide SlaveFits;
    FinalSlave(slaves, packed, k);
    StatusKeepsWindows(r, StatusAddress(slaves, packed, k), s.FMMUunused, OutWindows(s));
    hide OutWindows;
  }

  /** FMMUs `i` to `i + n` have windows that lie one behind the other and fill the bits [lo, hi). */
  ghost predicate Cover(f: seq<Fmmu>, i: nat, n: nat, lo: nat, hi: nat) {
    i + n <= |f| && Tile(f[i..i + n], lo, hi)
  }

  lemma {:induction false} SlaveIsCovered(s: IoSlave, dir: Direction, f: seq<Fmmu>, i: nat, n: nat, c: nat)
    requires Ready(s, dir) && Mappable(s, dir) && Bits(s, dir) > 0
    requires n == |SlaveFmmus(s, dir, c)| && i + n <= |f| && f[i..i + n] == SlaveFmmus(s, dir, c)
    ensures Cover(f, i, n, DataStart(c, Bits(s, dir)), DataEnd(c, Bits(s, dir)))
  {
    hide SlaveFmmus;
    hide Tile;
    hide Ready;
    hide Mappable;
    hide DataStart;
    hide DataEnd;
    SlaveFmmusTile(s, dir, c);
  }

  /** After mapping, the first FMMUs of slave `k` cover exactly the output bits (or rounded
      bytes) it asked for, without gap or overlap. */
  lemma {:induction false} FmmusCoverOutputs(slaves: seq<IoSlave>, packed: bool, k: nat)
    requires |slaves| >= 1 && GroupFits(slaves) && 1 <= k < |slaves| && SlaveFits(slaves[k]) && slaves[k].Obits > 0
    ensures var s := slaves[k];
            Cover(FinalList(slaves, packed)[k].FMMU, s.FMMUunused, OutWindows(s),
                  StartBit(slaves, Outputs, packed, 0, k), EndBit(slaves, Outputs, packed, 0, k))
  {
    hide Ready;
    hide Mappable;
    hide SlaveFmmus;
    hide SlaveWindows;
    hide CursorAt;
    hide FinalList;
    hide GroupFits;
    hide Cover;
    hide OutBytes;
    FitsBoth(slaves[k]);
    hide SlaveFits;
    var cO := CursorAt(slaves, Outputs, packed, 0, k);
    FinalWindows(slaves, packed, k, cO, CursorAt(slaves, Inputs, packed, 8 * OutBytes(slaves, packed), k));
    SlaveIsCovered(slaves[k], Outputs, FinalList(slaves, packed)[k].FMMU, slaves[k].FMMUunused,
                   OutWindows(slaves[k]), cO);
  }

  /** The next ones cover its inputs. */
  lemma {:induction false} FmmusCoverInputs(slaves: seq<IoSlave>, packed: bool, k: nat)
    requires |slaves| >= 1 && GroupFits(slaves) && 1 <= k < |slaves| && SlaveFits(slaves[k]) && slaves[k].Ibits > 0
    ensures var s, c := slaves[k], 8 * OutBytes(slaves, packed);
            Cover(FinalList(slaves, packed)[k].FMMU, s.FMMUunused + OutWindows(s), |SlaveWindows(s, Inputs)|,
                  StartBit(slaves, Inputs, packed, c, k), EndBit(slaves, Inputs, packed, c, k))
  {
    hide Ready;
    hide Mappable;
    hide SlaveFmmus;
    hide SlaveWindows;
    hide CursorAt;
    hide FinalList;
    hide GroupFits;
    hide Cover;
    hide OutBytes;
    hide OutWindows;
    FitsBoth(slaves[k]);
    hide SlaveFits;
    var cI := CursorAt(slaves, Inputs, packed, 8 * OutBytes(slaves, packed), k);
    FinalWindows(slaves, packed, k, CursorAt(slaves, Outputs, packed, 0, k), cI);
    SlaveIsCovered(slaves[k], Inputs, FinalList(slaves, packed)[k].FMMU, slaves[k].FMMUunused + OutWindows(slaves[k]),
                   |SlaveWindows(slaves[k], Inputs)|, cI);
  }

  lemma {:induction false} FitsBoth(s: IoSlave)
    requires SlaveFits(s)
    ensures Ready(s, Outputs) && Ready(s, Inputs) && |s.SM| == EC_MAXSM
    ensures s.Obits > 0 ==> Mappable(s, Outputs) && OutWindows(s) == |SlaveWindows(s, Outputs)|
    ensures s.Ibits > 0 ==> Mappable(s, Inputs)
  {
  }

  lemma {:induction false} StatusKeepsWindows(s: IoSlave, logAddr: nat, u: nat, n: nat)
    requires |s.FMMU| == EC_MAXFMMU && u + n <= s.FMMUunused <= EC_MAXFMMU
    ensures var r := WithStatus(s, logAddr);
            && |r.FMMU| == EC_MAXFMMU
            && r.FMMU[u..u + n] == s.FMMU[u..u + n] && r.FMMU[u + n..s.FMMUunused] == s.FMMU[u + n..s.FMMUunused]
  {
  }

  /** All outputs come before all inputs, and everything lies inside the image. */
  lemma {:induction false} OutputsBeforeInputs(slaves: seq<IoSlave>, packed: bool, m: nat, n: nat)
    requires 1 <= m < |slaves| && 1 <= n < |slaves| && slaves[m].Obits > 0 && slaves[n].Ibits > 0
    ensures var O, I := OutBytes(slaves, packed), InBytes(slaves, packed);
            && EndBit(slaves, Outputs, packed, 0, m) <= 8 * O <= StartBit(slaves, Inputs, packed, 8 * O, n)
            && EndBit(slaves, Inputs, packed, 8 * O, n) <= 8 * (O + I)
  {
    var O := OutBytes(slaves, packed);
    CursorMoves(slaves, Outputs, packed, 0, m);
    CursorMonotone(slaves, Outputs, packed, 0, m + 1, |slaves|);
    CursorMonotone(slaves, Inputs, packed, 8 * O, 1, n);
    CursorMoves(slaves, Inputs, packed, 8 * O, n);
    CursorMonotone(slaves, Inputs, packed, 8 * O, n + 1, |slaves|);
    CursorStarts(slaves, Inputs, packed, 8 * O);
    hide CursorAt;
    hide DataStart;
    hide DataEnd;
  }

  /** The FMMU for the status byte of a slave is the one behind its data windows. Its byte lies
      behind all inputs and inside the image, at the place that the lookup table gives the slave. */
  lemma {:induction false} StatusFmmu(slaves: seq<IoSlave>, packed: bool, k: nat)
    requires GroupFits(slaves) && 1 <= k < |slaves| && HasStatus(IoList(slaves, packed)[k])
    ensures var image, s, r := ImageOf(slaves, packed), IoList(slaves, packed)[k], FinalList(slaves, packed)[k];
            var at := StatusAddress(slaves, packed, k);
            && s.FMMUunused < |r.FMMU| && r.FMMUunused == s.FMMUunused + 1 && r.mbxstatus == Some(at)
            && r.FMMU[s.FMMUunused] == Fmmu(at, 1, 0, 7, ECT_REG_SM1STAT, 1, true)
            && image.Obytes + image.Ibytes <= at < image.Obytes + image.Ibytes + |image.mbxstatus|
            && image.mbxstatus[at - image.Obytes - image.Ibytes] == k
  {
    hide OutBytes;
    hide InBytes;
    hide GroupPacker;
    hide OutPacker;
    hide InPacker;
    hide StatusSlaves;
    hide StatusList;
    hide StatusWkc;
    hide IoList;
    hide GroupFits;
    hide HasStatus;
    hide WithStatus;
    var io := IoList(slaves, packed);
    StatusListAt(io, OutBytes(slaves, packed) + InBytes(slaves, packed), |slaves|, k);
    StatusAtRank(io, k, |slaves|);
    StatusParts(io[k], StatusAddress(slaves, packed, k));
  }

  lemma {:induction false} StatusParts(s: IoSlave, at: nat)
    requires |s.FMMU| == EC_MAXFMMU && HasStatus(s)
    ensures var r := WithStatus(s, at);
            && s.FMMUunused < |r.FMMU| && r.FMMUunused == s.FMMUunused + 1 && r.mbxstatus == Some(at)
            && r.FMMU[s.FMMUunused] == Fmmu(at, 1, 0, 7, ECT_REG_SM1STAT, 1, true)
  {
  }

  lemma {:induction false} StatusAtRank(slaves: seq<IoSlave>, k: nat, n: nat)
    requires 1 <= k < n <= |slaves| && HasStatus(slaves[k])
    ensures var who, rank := StatusSlaves(slaves, n), |StatusSlaves(slaves, k)|;
            rank < |who| && who[rank] == k
  {
    hide HasStatus;
    if k < n - 1 {
      StatusAtRank(slaves, k, n - 1);
    }
  }

  /** Status bytes of different slaves are different bytes, in the order of the slaves. */
  lemma {:induction false} StatusBytesApart(slaves: seq<IoSlave>, packed: bool, j: nat, k: nat)
    requires GroupFits(slaves) && 1 <= j < k < |slaves| && HasStatus(IoList(slaves, packed)[j])
    ensures StatusAddress(slaves, packed, j) < StatusAddress(slaves, packed, k)
  {
    hide IoList;
    hide OutBytes;
    hide InBytes;
    StatusAtRank(IoList(slaves, packed), j, k);
  }
}
