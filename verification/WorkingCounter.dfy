/** The working counter of a healthy cycle and the one that the mapping expects. Every slave adds,
    to the frame of every segment that holds data of it, two for its outputs and one for its
    inputs and its mailbox status byte together. */
module WorkingCounter {
  import opened EcTypes
  import opened IoSegments
  import opened IoMapping
  import opened IoGroup
  import opened IoImage
  import opened ProcessData
  import opened SegmentFrames
  import opened CyclicExchange

  /** Segment `k` holds bytes of [lo, hi). */
  predicate InSegment(segs: seq<nat>, k: nat, lo: nat, hi: nat)
    requires k < |segs|
  {
    Offset(segs, k) < hi && lo < Offset(segs, k + 1) && lo < hi && segs[k] > 0
  }

  /** How many of the first `n` segments do. */
  function CountSegments(segs: seq<nat>, lo: nat, hi: nat, n: nat): nat
    requires n <= |segs|
  {
    if n == 0 then 0 else CountSegments(segs, lo, hi, n - 1) + (if InSegment(segs, n - 1, lo, hi) then 1 else 0)
  }

  lemma {:induction false} TouchedIsCounted(segs: seq<nat>, lo: nat, hi: nat, n: nat)
    requires n <= |segs|
    ensures Touched(segs[..n], 0, lo, hi) == CountSegments(segs, lo, hi, n)
  {
    if n > 0 {
      TouchedIsCounted(segs, lo, hi, n - 1);
      assert segs[..n] == segs[..n - 1] + [segs[n - 1]];
      TouchedConcat(segs[..n - 1], [segs[n - 1]], 0, lo, hi);
      OffsetIsSum(segs, n - 1);
      OneTouched(segs[n - 1], Offset(segs, n - 1), lo, hi);
    }
  }

  lemma {:induction false} OneTouched(seg: nat, start: nat, lo: nat, hi: nat)
    ensures Touched([seg], start, lo, hi) == if start < hi && lo < start + seg && lo < hi && seg > 0 then 1 else 0
  {
    assert [seg][1..] == [];
  }

  /** The slave has data of this direction in segment `k`. */
  predicate Shows(segs: seq<nat>, slaves: seq<IoSlave>, dir: Direction, c: nat, n: nat, k: nat)
    requires 1 <= n < |slaves| && k < |segs|
  {
    Bits(slaves[n], dir) > 0
    && InSegment(segs, k, CursorAt(slaves, dir, false, c, n) / 8, CursorAt(slaves, dir, false, c, n + 1) / 8)
  }

  /** Slaves before number `n` that have data of this direction in segment `k`. */
  function SlavesIn(segs: seq<nat>, slaves: seq<IoSlave>, dir: Direction, c: nat, n: nat, k: nat): nat
    requires 1 <= n <= |slaves| && k < |segs|
  {
    if n == 1 then 0
    else SlavesIn(segs, slaves, dir, c, n - 1, k) + (if Shows(segs, slaves, dir, c, n - 1, k) then 1 else 0)
  }

  /** The same for the first `m` segments together. */
  function SlavesInAll(segs: seq<nat>, slaves: seq<IoSlave>, dir: Direction, c: nat, n: nat, m: nat): nat
    requires 1 <= n <= |slaves| && m <= |segs|
  {
    if m == 0 then 0 else SlavesInAll(segs, slaves, dir, c, n, m - 1) + SlavesIn(segs, slaves, dir, c, n, m - 1)
  }

  lemma {:induction false} NoSlaves(segs: seq<nat>, slaves: seq<IoSlave>, dir: Direction, c: nat, m: nat)
    requires |slaves| >= 1 && m <= |segs|
    ensures SlavesInAll(segs, slaves, dir, c, 1, m) == 0
  {
    if m > 0 {
      NoSlaves(segs, slaves, dir, c, m - 1);
    }
  }

  lemma {:induction false} OneMoreSlave(segs: seq<nat>, slaves: seq<IoSlave>, dir: Direction, c: nat, n: nat, m: nat)
    requires 1 <= n < |slaves| && m <= |segs|
    ensures SlavesInAll(segs, slaves, dir, c, n + 1, m) == SlavesInAll(segs, slaves, dir, c, n, m)
            + (if Bits(slaves[n], dir) == 0 then 0
               else CountSegments(segs, CursorAt(slaves, dir, false, c, n) / 8,
                 CursorAt(slaves, dir, false, c, n + 1) / 8, m))
  {
    hide CursorAt;
    hide InSegment;
    if m > 0 {
      OneMoreSlave(segs, slaves, dir, c, n, m - 1);
    }
  }

  /** Counted by segments or by slaves, there are as many pairs of a slave and a segment that holds
      data of it. */
  lemma {:induction false} CountedBothWays(segs: seq<nat>, slaves: seq<IoSlave>, dir: Direction, c: nat, n: nat)
    requires 1 <= n <= |slaves|
    ensures SlavesInAll(segs, slaves, dir, c, n, |segs|) == Shares(segs, slaves, dir, c, n)
  {
    hide CursorAt;
    hide Touched;
    hide CountSegments;
    if n == 1 {
      NoSlaves(segs, slaves, dir, c, |segs|);
    } else {
      CountedBothWays(segs, slaves, dir, c, n - 1);
      OneMoreSlave(segs, slaves, dir, c, n - 1, |segs|);
      TouchedIsCounted(segs, CursorAt(slaves, dir, false, c, n - 1) / 8, CursorAt(slaves, dir, false, c, n) / 8,
        |segs|);
      assert segs[..|segs|] == segs;
      hide SlavesInAll;
    }
  }

  // Mailbox status bytes, which slaves read too

  /** What was mapped: segments, slaves before and after mapping, the first bit of the inputs, and
      the address of the first status byte. */
  datatype Layout = Layout(segs: seq<nat>, slaves: seq<IoSlave>, io: seq<IoSlave>, c: nat, base: nat)

  ghost predicate Whole(l: Layout) {
    && 1 <= |l.slaves| == |l.io|
    && Offset(l.segs, |l.segs|) == l.base + |StatusSlaves(l.io, |l.io|)|
  }

  /** The address of the status byte of slave `n`. */
  function StatusByte(l: Layout, n: nat): nat
    requires 1 <= n <= |l.io|
  {
    l.base + |StatusSlaves(l.io, n)|
  }

  /** The status byte of slave `n` lies in segment `k`. */
  predicate StatusIn(l: Layout, n: nat, k: nat)
    requires 1 <= n < |l.io| && k < |l.segs|
  {
    HasStatus(l.io[n]) && InSegment(l.segs, k, StatusByte(l, n), StatusByte(l, n) + 1)
  }

  /** Slave `n` reads in the frame of segment `k`, which counts once. */
  predicate Reads(l: Layout, n: nat, k: nat)
    requires 1 <= n < |l.slaves| == |l.io| && k < |l.segs|
  {
    Shows(l.segs, l.slaves, Inputs, l.c, n, k) || StatusIn(l, n, k)
  }

  /** Slaves before number `n` that read in segment `k`. */
  function ReadersIn(l: Layout, n: nat, k: nat): nat
    requires 1 <= n <= |l.slaves| == |l.io| && k < |l.segs|
  {
    if n == 1 then 0 else ReadersIn(l, n - 1, k) + (if Reads(l, n - 1, k) then 1 else 0)
  }

  /** The same for the first `m` segments together. */
  function ReadersInAll(l: Layout, n: nat, m: nat): nat
    requires 1 <= n <= |l.slaves| == |l.io| && m <= |l.segs|
  {
    if m == 0 then 0 else ReadersInAll(l, n, m - 1) + ReadersIn(l, n, m - 1)
  }

  /** In how many of the first `m` segments slave `n` reads. */
  function CountReads(l: Layout, n: nat, m: nat): nat
    requires 1 <= n < |l.slaves| == |l.io| && m <= |l.segs|
  {
    if m == 0 then 0 else CountReads(l, n, m - 1) + (if Reads(l, n, m - 1) then 1 else 0)
  }

  /** One of the first `m` segments holds the status byte of slave `n` together with inputs of it. */
  predicate Together(l: Layout, n: nat, m: nat)
    requires 1 <= n < |l.slaves| == |l.io| && m <= |l.segs|
  {
    m > 0 && (Together(l, n, m - 1) || (StatusIn(l, n, m - 1) && Shows(l.segs, l.slaves, Inputs, l.c, n, m - 1)))
  }

  /** Slaves before number `n` whose status byte lies in a segment without inputs of theirs. */
  function StatusApart(l: Layout, n: nat): nat
    requires 1 <= n <= |l.slaves| == |l.io|
  {
    if n == 1 then 0
    else StatusApart(l, n - 1) + (if HasStatus(l.io[n - 1]) && !Together(l, n - 1, |l.segs|) then 1 else 0)
  }

  /** Segments with inputs of the slave, and the one with its status byte if that is another one. */
  lemma {:induction false} ReadsAreCounted(l: Layout, n: nat, m: nat)
    requires 1 <= n < |l.slaves| == |l.io| && m <= |l.segs|
    ensures CountReads(l, n, m) ==
            (if Bits(l.slaves[n], Inputs) == 0 then 0
             else CountSegments(l.segs, CursorAt(l.slaves, Inputs, false, l.c, n) / 8,
                                CursorAt(l.slaves, Inputs, false, l.c, n + 1) / 8, m))
            + (if HasStatus(l.io[n]) && StatusByte(l, n) < Offset(l.segs, m) && !Together(l, n, m) then 1 else 0)
    ensures Together(l, n, m) ==> StatusByte(l, n) < Offset(l.segs, m)
  {
    hide CursorAt;
    hide HasStatus;
    hide StatusSlaves;
    if m > 0 {
      ReadsAreCounted(l, n, m - 1);
    }
  }

  lemma {:induction false} NoReaders(l: Layout, m: nat)
    requires 1 <= |l.slaves| == |l.io| && m <= |l.segs|
    ensures ReadersInAll(l, 1, m) == 0
  {
    if m > 0 {
      NoReaders(l, m - 1);
    }
  }

  lemma {:induction false} OneMoreReader(l: Layout, n: nat, m: nat)
    requires 1 <= n < |l.slaves| == |l.io| && m <= |l.segs|
    ensures ReadersInAll(l, n + 1, m) == ReadersInAll(l, n, m) + CountReads(l, n, m)
  {
    hide Reads;
    if m > 0 {
      OneMoreReader(l, n, m - 1);
    }
  }

  lemma {:induction false} StatusInside(l: Layout, n: nat)
    requires 1 <= n < |l.io| && HasStatus(l.io[n])
    ensures |StatusSlaves(l.io, n)| < |StatusSlaves(l.io, |l.io|)|
  {
    StatusSlavesGrow(l.io, n + 1, |l.io|);
  }

  /** Counted by segments or by slaves, there are as many pairs of a slave and a segment it reads in. */
  lemma {:induction false} ReadersCounted(l: Layout, n: nat)
    requires Whole(l) && 1 <= n <= |l.slaves|
    ensures ReadersInAll(l, n, |l.segs|) == Shares(l.segs, l.slaves, Inputs, l.c, n) + StatusApart(l, n)
  {
    hide CursorAt;
    hide Touched;
    hide CountSegments;
    hide StatusSlaves;
    hide HasStatus;
    hide Together;
    if n == 1 {
      NoReaders(l, |l.segs|);
    } else {
      ReadersCounted(l, n - 1);
      OneMoreReader(l, n - 1, |l.segs|);
      ReadsAreCounted(l, n - 1, |l.segs|);
      if HasStatus(l.io[n - 1]) {
        StatusInside(l, n - 1);
      }
      TouchedIsCounted(l.segs, CursorAt(l.slaves, Inputs, false, l.c, n - 1) / 8,
                       CursorAt(l.slaves, Inputs, false, l.c, n) / 8, |l.segs|);
      assert l.segs[..|l.segs|] == l.segs;
      hide ReadersInAll;
      hide CountReads;
      hide Offset;
    }
  }

  // The cycle

  /** What healthy slaves add to the frame of segment `k`. */
  function SegmentWkc(l: Layout, k: nat): nat
    requires 1 <= |l.slaves| == |l.io| && k < |l.segs|
  {
    2 * SlavesIn(l.segs, l.slaves, Outputs, 0, |l.slaves|, k) + ReadersIn(l, |l.slaves|, k)
  }

  function WkcUpTo(l: Layout, m: nat): nat
    requires 1 <= |l.slaves| == |l.io| && m <= |l.segs|
  {
    if m == 0 then 0 else WkcUpTo(l, m - 1) + SegmentWkc(l, m - 1)
  }

  lemma {:induction false} WkcOfDirections(l: Layout, m: nat)
    requires 1 <= |l.slaves| == |l.io| && m <= |l.segs|
    ensures WkcUpTo(l, m) ==
            2 * SlavesInAll(l.segs, l.slaves, Outputs, 0, |l.slaves|, m) + ReadersInAll(l, |l.slaves|, m)
  {
    hide SlavesIn;
    hide ReadersIn;
    if m > 0 {
      WkcOfDirections(l, m - 1);
    }
  }

  /** Empty segments, which are not sent, hold no data. */
  lemma {:induction false} EmptySegments(l: Layout, m: nat)
    requires 1 <= |l.slaves| == |l.io| && m <= |l.segs| && Offset(l.segs, m) == Offset(l.segs, |l.segs|)
    ensures WkcUpTo(l, |l.segs|) == WkcUpTo(l, m)
    decreases |l.segs| - m
  {
    if m < |l.segs| {
      OffsetGrows(l.segs, m + 1, |l.segs|);
      assert l.segs[m] == 0;
      NoneIn(l.segs, l.slaves, Outputs, 0, |l.slaves|, m);
      NoneReads(l, |l.slaves|, m);
      hide SlavesIn;
      hide ReadersIn;
      EmptySegments(l, m + 1);
    }
  }

  lemma {:induction false} NoneIn(segs: seq<nat>, slaves: seq<IoSlave>, dir: Direction, c: nat, n: nat, k: nat)
    requires 1 <= n <= |slaves| && k < |segs| && segs[k] == 0
    ensures SlavesIn(segs, slaves, dir, c, n, k) == 0
  {
    hide CursorAt;
    if n > 1 {
      NoneIn(segs, slaves, dir, c, n - 1, k);
    }
  }

  lemma {:induction false} NoneReads(l: Layout, n: nat, k: nat)
    requires 1 <= n <= |l.slaves| == |l.io| && k < |l.segs| && l.segs[k] == 0
    ensures ReadersIn(l, n, k) == 0
  {
    hide CursorAt;
    hide HasStatus;
    if n > 1 {
      NoneReads(l, n - 1, k);
    }
  }

  /** Frame `k` came back with what healthy slaves add to it. */
  ghost predicate Healthy(slots: seq<Slot>, answers: seq<seq<byte>>, l: Layout) {
    && 1 <= |l.slaves| == |l.io| && |answers| == |slots| <= |l.segs|
    && forall k :: 0 <= k < |slots| ==> WkcOf(answers[k], slots[k]) as int == SegmentWkc(l, k)
  }

  lemma {:induction false} HealthySum(slots: seq<Slot>, answers: seq<seq<byte>>, came: seq<bool>, l: Layout, m: nat)
    requires Healthy(slots, answers, l) && m <= |slots| == |came|
    requires forall k :: 0 <= k < |came| ==> came[k]
    ensures WkcSum(slots, answers, came, m) == WkcUpTo(l, m)
  {
    hide SegmentWkc;
    hide WkcOf;
    if m > 0 {
      HealthySum(slots, answers, came, l, m - 1);
    }
  }

  /** What mapping leaves, without packing. */
  ghost function MappedLayout(slaves: seq<IoSlave>): (l: Layout)
    requires |slaves| >= 1 && GroupFits(slaves)
    ensures 1 <= |l.slaves| == |l.io|
  {
    var image := ImageOf(slaves, false);
    Layout(image.segments, slaves, IoList(slaves, false), 8 * image.Obytes, image.Obytes + image.Ibytes)
  }

  lemma {:induction false} LayoutIsWhole(slaves: seq<IoSlave>)
    requires |slaves| >= 1 && GroupFits(slaves)
    ensures var image, l := ImageOf(slaves, false), MappedLayout(slaves);
            && Whole(l) && l.segs == image.segments && l.slaves == slaves
            && image.mbxstatus == StatusSlaves(l.io, |l.io|)
            && Offset(l.segs, |l.segs|) == image.Obytes + image.Ibytes + |image.mbxstatus|
  {
    var segs := ImageOf(slaves, false).segments;
    SegmentsCoverImage(slaves, false);
    OffsetIsSum(segs, |segs|);
    assert segs[..|segs|] == segs;
    hide GroupFits;
    hide IoList;
    hide OutPacker;
    hide InPacker;
    hide GroupPacker;
    hide OutBytes;
    hide InBytes;
    hide StatusSlaves;
    hide Offset;
    hide Sum;
  }

  /** From the mapping to the cycle, without packing: when all slaves are healthy and every answer
      comes, the working counter of the cycle is the one that the application expects, if and only
      if the status bytes that lie apart from the inputs of their slave make up for what is counted
      without being read: slaves cut right behind a segment that is exactly full, and slaves with
      a status byte and without whole bytes of input. */
  lemma {:induction false} HealthyCycleIsExpected(
    slaves: seq<IoSlave>, slots: seq<Slot>, answers: seq<seq<byte>>, came: seq<bool>)
    requires |slaves| >= 1 && GroupFits(slaves)
    requires Healthy(slots, answers, MappedLayout(slaves))
    requires var image := ImageOf(slaves, false);
             Offset(image.segments, |slots|) == image.Obytes + image.Ibytes + |image.mbxstatus|
    requires |came| == |slots| && forall k :: 0 <= k < |came| ==> came[k]
    ensures var image := ImageOf(slaves, false);
            WkcSum(slots, answers, came, |slots|) == 2 * image.outputsWKC + image.inputsWKC
            <==> StatusApart(MappedLayout(slaves), |slaves|)
                 == 2 * Overcounted(slaves, Outputs, 0, Empty, |slaves|)
                    + Overcounted(slaves, Inputs, 8 * image.Obytes, OutPacker(slaves, false).(wkc := 0), |slaves|)
                    + StatusWkc(IoList(slaves, false), |slaves|)
  {
    var image, l := ImageOf(slaves, false), MappedLayout(slaves);
    ExpectedWkcIsExact(slaves);
    LayoutIsWhole(slaves);
    assert l.c == 8 * image.Obytes;
    hide ImageOf;
    hide MappedLayout;
    hide GroupFits;
    hide IoList;
    hide Overcounted;
    hide OutPacker;
    hide StatusWkc;
    hide StatusApart;
    HealthySum(slots, answers, came, l, |slots|);
    EmptySegments(l, |slots|);
    WkcOfDirections(l, |l.segs|);
    CountedBothWays(l.segs, slaves, Outputs, 0, |slaves|);
    ReadersCounted(l, |slaves|);
    hide Healthy;
    hide Whole;
    hide WkcUpTo;
    hide SlavesInAll;
    hide ReadersInAll;
    hide Shares;
    hide Offset;
  }

  lemma {:induction false} NoStatusApart(l: Layout, n: nat)
    requires Whole(l) && StatusSlaves(l.io, |l.io|) == [] && 1 <= n <= |l.slaves|
    ensures StatusApart(l, n) == 0 && StatusWkc(l.io, n) == 0
  {
    hide Together;
    if n > 1 {
      NoStatusApart(l, n - 1);
      if HasStatus(l.io[n - 1]) {
        StatusInside(l, n - 1);
      }
    }
  }

  /** Without status bytes it is, if and only if no slave is cut right behind a full segment. */
  lemma {:induction false} HealthyWithoutStatus(
    slaves: seq<IoSlave>, slots: seq<Slot>, answers: seq<seq<byte>>, came: seq<bool>)
    requires |slaves| >= 1 && GroupFits(slaves) && ImageOf(slaves, false).mbxstatus == []
    requires Healthy(slots, answers, MappedLayout(slaves))
    requires var image := ImageOf(slaves, false);
             Offset(image.segments, |slots|) == image.Obytes + image.Ibytes
    requires |came| == |slots| && forall k :: 0 <= k < |came| ==> came[k]
    ensures var image := ImageOf(slaves, false);
            WkcSum(slots, answers, came, |slots|) == 2 * image.outputsWKC + image.inputsWKC
            <==> Overcounted(slaves, Outputs, 0, Empty, |slaves|) == 0
                 && Overcounted(slaves, Inputs, 8 * image.Obytes, OutPacker(slaves, false).(wkc := 0), |slaves|) == 0
  {
    LayoutIsWhole(slaves);
    NoStatusApart(MappedLayout(slaves), |slaves|);
    HealthyCycleIsExpected(slaves, slots, answers, came);
    assert MappedLayout(slaves).io == IoList(slaves, false);
    hide *;
  }

  /** A slave with four input bits and a mailbox. */
  const BitSlave: IoSlave := IoSlave(0, 0, None, 0, 4, 0, None, 0, 64, None,
                                     [SyncManager(0x1000, 1, 4)] + seq(EC_MAXSM - 1, i => SyncManager(0, 0, 0)),
                                     seq(EC_MAXFMMU, i => BlankFmmu), 0)

  lemma {:induction false} BitSlaveFits()
    ensures SlaveFits(BitSlave)
  {
    SupplySkips(BitSlave.SM, 3, 0, EC_MAXSM);
    SupplySkips(BitSlave.SM, 4, 1, EC_MAXSM);
  }

  /** A cycle whose counter is wrong because of a status byte: the slave reads its inputs and its
      status byte in the same segment. Its answer adds one, and the counter expects two. */
  lemma {:induction false} StatusCountsTwice()
      returns (slaves: seq<IoSlave>, slots: seq<Slot>, answers: seq<seq<byte>>)
    ensures |slaves| == 2 && GroupFits(slaves)
    ensures Healthy(slots, answers, MappedLayout(slaves)) && |slots| == |answers| == 1
    ensures var image := ImageOf(slaves, false);
            && Offset(image.segments, 1) == image.Obytes + image.Ibytes + |image.mbxstatus|
            && WkcSum(slots, answers, [true], 1) == 1 && 2 * image.outputsWKC + image.inputsWKC == 2
    ensures Overcounted(slaves, Outputs, 0, Empty, 2) == 0
    ensures Overcounted(slaves, Inputs, 0, OutPacker(slaves, false).(wkc := 0), 2) == 0
    ensures ImageOf(slaves, false).Obytes == 0 && StatusWkc(IoList(slaves, false), 2) == 1
    ensures StatusApart(MappedLayout(slaves), 2) == 0
  {
    slaves := [BitSlave, BitSlave];
    BitSlaveFits();
    BitSlavesPacked(slaves);
    BitSlavesImage(slaves);
    hide GroupFits;
    hide IoList;
    hide GroupPacker;
    hide OutPacker;
    hide OutBytes;
    hide InBytes;
    var l := MappedLayout(slaves);
    assert Offset(l.segs, 0) == 0 && Offset(l.segs, 1) == 2;
    assert StatusIn(l, 1, 0) && Shows(l.segs, slaves, Inputs, 0, 1, 0);
    OneReads(l);
    slots := [Slot(0, 0, 2, 0)];
    answers := [seq(28, i => 0 as byte) + [1, 0]];
    assert WkcOf(answers[0], slots[0]) == 1;
    assert WkcSum(slots, answers, [true], 0) == 0;
  }

  lemma {:induction false} OneReads(l: Layout)
    requires |l.slaves| == |l.io| == 2 && |l.segs| == 1 && l.slaves[1].Obits == 0
    requires Shows(l.segs, l.slaves, Inputs, l.c, 1, 0)
    ensures SegmentWkc(l, 0) == 1
  {
    hide CursorAt;
    hide InSegment;
    assert ReadersIn(l, 1, 0) == 0 && SlavesIn(l.segs, l.slaves, Outputs, 0, 1, 0) == 0;
  }

  lemma {:induction false} BitSlavesPacked(slaves: seq<IoSlave>)
    requires slaves == [BitSlave, BitSlave]
    ensures OutPacker(slaves, false) == Empty && OutBytes(slaves, false) == 0 && InBytes(slaves, false) == 1
    ensures CursorAt(slaves, Inputs, false, 0, 1) == 0 && CursorAt(slaves, Inputs, false, 0, 2) == 8
    ensures InPacker(slaves, false) == Packer([], 1, 1466, 1)
    ensures Overcounted(slaves, Outputs, 0, Empty, 2) == 0 && Overcounted(slaves, Inputs, 0, Empty, 2) == 0
  {
    assert CursorAt(slaves, Outputs, false, 0, 2) == 0;
    assert PackerAt(slaves, Outputs, false, 0, Empty, 2) == Empty;
    assert PackerAt(slaves, Inputs, false, 0, Empty, 2) == Packer([], 1, 1466, 1);
  }

  lemma {:induction false} BitSlavesImage(slaves: seq<IoSlave>)
    requires slaves == [BitSlave, BitSlave] && GroupFits(slaves) && InPacker(slaves, false) == Packer([], 1, 1466, 1)
    ensures var image := ImageOf(slaves, false);
            && image.segments == [2] && image.mbxstatus == [1] && image.inputsWKC == 2
    ensures var io := IoList(slaves, false);
            HasStatus(io[1]) && StatusSlaves(io, 1) == [] && StatusSlaves(io, 2) == [1] && StatusWkc(io, 2) == 1
  {
    hide InPacker;
    hide OutPacker;
    hide OutBytes;
    hide InBytes;
    var io := IoList(slaves, false);
    IoKeepsMailbox(slaves, false, 1);
    BitSlaveMapped(slaves);
    hide GroupFits;
    hide IoList;
    var p := InPacker(slaves, false);
    StatusPackerStarts(io, p);
    assert StatusPacker(io, p, 2) == AddStatus(p, 1) == Packer([], 2, 1466, 1);
    assert |io| == 2 && StatusSlaves(io, 1) == [] && StatusSlaves(io, 2) == [1];
    assert StatusWkc(io, 1) == 0 && StatusWkc(io, 2) == 1;
  }

  lemma {:induction false} BitSlaveMapped(slaves: seq<IoSlave>)
    requires slaves == [BitSlave, BitSlave] && GroupFits(slaves)
    ensures IoList(slaves, false)[1].FMMUunused == 1
  {
    GroupMappable(slaves, false);
    DirectionListAt(slaves, Outputs, false, 0, 2, 1);
    DirectionListAt(OutList(slaves, false), Inputs, false, 8 * OutBytes(slaves, false), 2, 1);
  }

  /** The status bytes that the expected counter adds: one for every slave that has a mailbox and an FMMU
      left, and less than eight bits of input. */
  lemma {:induction false} StatusesCounted(slaves: seq<IoSlave>, packed: bool, n: nat)
    requires GroupFits(slaves) && 1 <= n <= |slaves|
    ensures StatusWkc(IoList(slaves, packed), n) == |Quiet(slaves, IoList(slaves, packed), n)|
  {
    hide IoList;
    hide GroupFits;
    if n > 1 {
      StatusesCounted(slaves, packed, n - 1);
      IoKeepsMailbox(slaves, packed, n - 1);
      WholeInputs(slaves, n - 1);
      var io := IoList(slaves, packed);
      assert Quiet(slaves, io, n)
             == Quiet(slaves, io, n - 1) + if IsQuiet(slaves[n - 1], io[n - 1]) then {n - 1} else {};
    }
  }

  /** The slave `s` has a mailbox and few inputs, and when its data are mapped an FMMU is left. */
  predicate IsQuiet(s: IoSlave, io: IoSlave) {
    s.mbx_l > 0 && s.Ibits < 8 && io.FMMUunused < 4
  }

  function Quiet(slaves: seq<IoSlave>, io: seq<IoSlave>, n: nat): set<nat>
    requires n <= |slaves| == |io|
  {
    set k: nat | 1 <= k < n && IsQuiet(slaves[k], io[k])
  }

  lemma {:induction false} WholeInputs(slaves: seq<IoSlave>, k: nat)
    requires GroupFits(slaves) && 1 <= k < |slaves|
    ensures slaves[k].Ibytes == 0 <==> slaves[k].Ibits < 8
  {
    assert SlaveFits(slaves[k]);
  }
}
