/** Working counters in packed mode (ec_config.c): a slave counts only if its bits reach the end of the
    byte in which they begin. */
module IoPacked {
  import opened EcTypes
  import opened IoSegments
  import opened IoMapping
  import opened IoGroup
  import opened IoImage

  /** Slaves before number `n` that have outputs. */
  function Writers(slaves: seq<IoSlave>, n: nat): nat
    requires 1 <= n <= |slaves|
  {
    if n == 1 then 0 else Writers(slaves, n - 1) + if slaves[n - 1].Obits > 0 then 1 else 0
  }

  /** Those of them behind which the byte address is another one. */
  function Counted(slaves: seq<IoSlave>, n: nat): nat
    requires 1 <= n <= |slaves|
  {
    if n == 1 then 0
    else Counted(slaves, n - 1) + if slaves[n - 1].Obits > 0 && EndsInNextByte(slaves, n - 1) then 1 else 0
  }

  predicate EndsInNextByte(slaves: seq<IoSlave>, k: nat)
    requires 1 <= k < |slaves|
  {
    CursorAt(slaves, Outputs, true, 0, k) / 8 < CursorAt(slaves, Outputs, true, 0, k + 1) / 8
  }

  /** All slaves with outputs are counted if and only if each of them reaches the next byte. */
  lemma {:induction false} CountedIff(slaves: seq<IoSlave>, n: nat)
    requires 1 <= n <= |slaves|
    ensures Counted(slaves, n) <= Writers(slaves, n)
    ensures Counted(slaves, n) == Writers(slaves, n)
            <==> forall k :: 1 <= k < n && slaves[k].Obits > 0 ==> EndsInNextByte(slaves, k)
  {
    hide EndsInNextByte;
    if n > 1 {
      CountedIff(slaves, n - 1);
    }
  }

  /** While the outputs fit the first segment there is no cut. */
  lemma {:induction false} OneSegment(slaves: seq<IoSlave>, n: nat)
    requires 1 <= n <= |slaves| && CursorAt(slaves, Outputs, true, 0, n) / 8 <= 1466
    ensures PackerAt(slaves, Outputs, true, 0, Empty, n)
            == Packer([], CursorAt(slaves, Outputs, true, 0, n) / 8, 1466, Counted(slaves, n))
  {
    hide AddImage;
    hide CursorAt;
    CursorStarts(slaves, Outputs, true, 0);
    if n > 1 {
      CursorMoves(slaves, Outputs, true, 0, n - 1);
      OneSegment(slaves, n - 1);
      NoBitsNoMove(slaves, n - 1);
      var open := CursorAt(slaves, Outputs, true, 0, n - 1) / 8;
      AddSmall(open, Grown(slaves, Outputs, true, 0, n - 1), Counted(slaves, n - 1));
    }
  }

  lemma {:induction false} NoBitsNoMove(slaves: seq<IoSlave>, k: nat)
    requires 1 <= k < |slaves|
    ensures slaves[k].Obits == 0 ==> CursorAt(slaves, Outputs, true, 0, k + 1) == CursorAt(slaves, Outputs, true, 0, k)
  {
  }

  lemma {:induction false} AddSmall(open: nat, diff: nat, wkc: nat)
    requires open + diff <= 1466
    ensures AddImage(Packer([], open, 1466, wkc), diff)
            == Packer([], open + diff, 1466, if diff > 0 then wkc + 1 else wkc)
  {
  }

  /** Packed outputs that fit the first segment: every slave with outputs writes in it, and so many are
      expected if and only if the outputs of each reach the end of the byte in which they begin. */
  lemma {:induction false} PackedCountIff(slaves: seq<IoSlave>)
    requires |slaves| >= 1 && GroupFits(slaves) && OutBytes(slaves, true) <= 1466
    ensures ImageOf(slaves, true).outputsWKC == Counted(slaves, |slaves|) <= Writers(slaves, |slaves|)
    ensures ImageOf(slaves, true).outputsWKC == Writers(slaves, |slaves|)
            <==> forall k :: 1 <= k < |slaves| && slaves[k].Obits > 0 ==> EndsInNextByte(slaves, k)
  {
    hide GroupFits;
    hide IoList;
    hide GroupPacker;
    hide InPacker;
    hide InBytes;
    hide StatusSlaves;
    hide StatusWkc;
    CountedIff(slaves, |slaves|);
    OneSegment(slaves, |slaves|);
    hide CursorAt;
    hide PackerAt;
    hide Counted;
    hide Writers;
    hide EndsInNextByte;
  }

  /** A slave of four output bits, alone in its group: it writes in the one byte of the image, and no
      writer is expected. */
  lemma {:induction false} PackedUndercounts() returns (slaves: seq<IoSlave>)
    ensures |slaves| == 2 && GroupFits(slaves) && slaves[1].Obits == 4
    ensures var image := ImageOf(slaves, true); image.Obytes == 1 && image.outputsWKC == 0 && Writers(slaves, 2) == 1
  {
    var s := FourBits();
    slaves := [s, s];
    FourBitsFit();
    hide SlaveFits;
    assert CursorAt(slaves, Outputs, true, 0, 1) == 0 && CursorAt(slaves, Outputs, true, 0, 2) == 4;
    assert Counted(slaves, 1) == 0 && Counted(slaves, 2) == 0 && Writers(slaves, 1) == 0;
    PackedCountIff(slaves);
    ImageStartsWithOutputs(slaves);
    hide ImageOf;
  }

  function FourBits(): IoSlave {
    IoSlave(4, 0, None, 0, 0, 0, None, 0, 0, None,
            [SyncManager(0x1000, 1, 3)] + seq(EC_MAXSM - 1, i => SyncManager(0, 0, 0)),
            seq(EC_MAXFMMU, i => BlankFmmu), 0)
  }

  lemma {:induction false} FourBitsFit()
    ensures SlaveFits(FourBits())
  {
    var s := FourBits();
    SupplySkips(s.SM, 3, 1, EC_MAXSM);
    SupplySkips(s.SM, 4, 0, EC_MAXSM);
    assert Supply(s.SM, 3, 0) == 1 && Supply(s.SM, 4, 0) == 0;
  }

  lemma {:induction false} ImageStartsWithOutputs(slaves: seq<IoSlave>)
    requires |slaves| >= 1 && GroupFits(slaves)
    ensures ImageOf(slaves, true).Obytes == OutBytes(slaves, true)
  {
    hide GroupFits;
    hide IoList;
    hide GroupPacker;
    hide OutPacker;
    hide InPacker;
    hide InBytes;
    hide OutBytes;
    hide StatusSlaves;
    hide StatusWkc;
  }
}
