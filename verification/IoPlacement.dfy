/** Where in the memory of a slave its data are: what the sync managers say, and what the FMMUs that
    mapping sets make of it (ec_config.c). The count of bytes goes on from window to window, so that
    from the second window on a window may be longer than its sync managers. */
module IoPlacement {
  import opened EcTypes
  import opened IoMapping

  /** Where byte `d` of the data is, by the sync managers of the type from index `i` on. */
  function AddressOf(sm: seq<SyncManager>, smtype: nat, i: nat, d: nat): Option<nat>
    requires |sm| == EC_MAXSM && i <= EC_MAXSM
    decreases EC_MAXSM - i
  {
    if i == EC_MAXSM then None
    else if sm[i].SMtype != smtype then AddressOf(sm, smtype, i + 1, d)
    else if d < sm[i].SMlength then Some(sm[i].StartAddr + d)
    else AddressOf(sm, smtype, i + 1, d - sm[i].SMlength)
  }

  /** Where the windows put it. */
  function MappedTo(w: seq<Window>, d: nat): Option<nat> {
    if w == [] then None
    else if d < w[0].size then Some(w[0].PhysStart + d)
    else MappedTo(w[1..], d - w[0].size)
  }

  /** Every sync manager of the type has data. */
  predicate NoneEmpty(sm: seq<SyncManager>, smtype: nat) {
    forall k :: 0 <= k < |sm| && sm[k].SMtype == smtype ==> sm[k].SMlength > 0
  }

  /** The sync managers that are joined to the counted one at `i` in one run begin where the one before
      ends; `at` is where that is. The code joins a sync manager also if it begins earlier. */
  predicate Straight(sm: seq<SyncManager>, smtype: nat, bits: nat, i: nat, count: nat, at: nat)
    requires |sm| == EC_MAXSM && i < EC_MAXSM
    decreases EC_MAXSM - i
  {
    8 * count >= bits || i == EC_MAXSM - 1 ||
    var j := NextOfType(sm, smtype, i + 1);
    sm[j].StartAddr > sm[i].StartAddr + sm[i].SMlength
    || (sm[j].StartAddr == at && Straight(sm, smtype, bits, j, count + sm[j].SMlength, at + sm[j].SMlength))
  }

  /** The run that begins at the first sync manager of the type from `i` on: whether it is straight,
      where it ends and what is counted then. */
  predicate RunStraight(sm: seq<SyncManager>, smtype: nat, bits: nat, i: nat, count: nat)
    requires |sm| == EC_MAXSM && i < EC_MAXSM
  {
    var j := NextOfType(sm, smtype, i);
    Straight(sm, smtype, bits, j, count + sm[j].SMlength, sm[j].StartAddr + sm[j].SMlength)
  }

  function RunFrom(sm: seq<SyncManager>, smtype: nat, bits: nat, i: nat, count: nat): (r: (nat, nat))
    requires |sm| == EC_MAXSM && i < EC_MAXSM
    ensures r.0 < EC_MAXSM
  {
    var j := NextOfType(sm, smtype, i);
    RunEnd(sm, smtype, bits, j, count + sm[j].SMlength)
  }

  /** At most two runs of sync managers are needed, and these are straight. */
  predicate TwoRuns(sm: seq<SyncManager>, smtype: nat, bits: nat)
    requires |sm| == EC_MAXSM
  {
    var (e, c) := RunFrom(sm, smtype, bits, 0, 0);
    && RunStraight(sm, smtype, bits, 0, 0)
    && (8 * c < bits ==>
          RunStraight(sm, smtype, bits, e, c) && 8 * RunFrom(sm, smtype, bits, e, c).1 >= bits)
  }

  lemma {:induction false} AddressSkips(sm: seq<SyncManager>, smtype: nat, i: nat, j: nat, d: nat)
    requires |sm| == EC_MAXSM && i <= j <= EC_MAXSM && forall k :: i <= k < j ==> sm[k].SMtype != smtype
    ensures AddressOf(sm, smtype, i, d) == AddressOf(sm, smtype, j, d)
    decreases j - i
  {
    if i < j {
      AddressSkips(sm, smtype, i + 1, j, d);
    }
  }

  /** The next sync manager that is needed, and the addresses from there on. */
  lemma {:induction false} AddressNext(sm: seq<SyncManager>, smtype: nat, bits: nat, i: nat, count: nat, d: nat)
    requires |sm| == EC_MAXSM && i < EC_MAXSM && 8 * count < bits && Enough(sm, smtype, bits, i, count)
    ensures var j := NextOfType(sm, smtype, i);
            && sm[j].SMtype == smtype && Enough(sm, smtype, bits, j + 1, count + sm[j].SMlength)
            && AddressOf(sm, smtype, i, d)
               == (if d < sm[j].SMlength then Some(sm[j].StartAddr + d)
                   else AddressOf(sm, smtype, j + 1, d - sm[j].SMlength))
            && AddressOf(sm, smtype, i, d) == AddressOf(sm, smtype, j, d)
  {
    hide Supply;
    NextIsOfType(sm, smtype, bits, i, count);
    AddressSkips(sm, smtype, i, NextOfType(sm, smtype, i), d);
  }

  /** In a straight run the data lie one byte behind the other; behind the run they go on at the sync
      manager that is counted next. */
  lemma {:induction false} StraightRun(
    sm: seq<SyncManager>, smtype: nat, bits: nat, i: nat, count: nat, at: nat, d: nat)
    requires |sm| == EC_MAXSM && i < EC_MAXSM && Enough(sm, smtype, bits, i + 1, count)
    ensures var (e, c) := RunEnd(sm, smtype, bits, i, count);
            && (Straight(sm, smtype, bits, i, count, at) && count + d < c && 8 * (count + d) < bits ==>
                  AddressOf(sm, smtype, i + 1, d) == Some(at + d))
            && (8 * c < bits && count + d >= c ==>
                  AddressOf(sm, smtype, i + 1, d) == AddressOf(sm, smtype, e, d - (c - count)))
            && c >= count
    decreases EC_MAXSM - i
  {
    hide NextOfType;
    hide RunEnd;
    hide Supply;
    hide AddressOf;
    RunEndStep(sm, smtype, bits, i, count);
    if 8 * count >= bits || i == EC_MAXSM - 1 {
      SupplyStep(sm, smtype, EC_MAXSM);
    } else {
      var j := NextOfType(sm, smtype, i + 1);
      AddressNext(sm, smtype, bits, i + 1, count, d);
      if sm[j].StartAddr <= sm[i].StartAddr + sm[i].SMlength {
        var n := sm[j].SMlength;
        hide Enough;
        StraightRun(sm, smtype, bits, j, count + n, at + n, if d < n then 0 else d - n);
      }
    }
  }

  /** A run that is not straight has data that are not where they would be in a straight one. */
  lemma {:induction false} CrookedRun(sm: seq<SyncManager>, smtype: nat, bits: nat, i: nat, count: nat, at: nat)
      returns (d: nat)
    requires |sm| == EC_MAXSM && i < EC_MAXSM && Enough(sm, smtype, bits, i + 1, count) && NoneEmpty(sm, smtype)
    requires !Straight(sm, smtype, bits, i, count, at)
    ensures count + d < RunEnd(sm, smtype, bits, i, count).1 && 8 * (count + d) < bits
    ensures AddressOf(sm, smtype, i + 1, d) != Some(at + d)
    decreases EC_MAXSM - i
  {
    hide NextOfType;
    hide RunEnd;
    hide Supply;
    hide AddressOf;
    RunEndStep(sm, smtype, bits, i, count);
    var j := NextOfType(sm, smtype, i + 1);
    var n := sm[j].SMlength;
    d := 0;
    AddressNext(sm, smtype, bits, i + 1, count, 0);
    StraightRun(sm, smtype, bits, j, count + n, at + n, 0);
    hide Enough;
    if sm[j].StartAddr == at {
      d := CrookedRun(sm, smtype, bits, j, count + n, at + n);
      d := d + n;
      AddressNext(sm, smtype, bits, i + 1, count, d);
    }
  }

  // One run from an index on, with its first sync manager

  lemma {:induction false} RunPlaced(sm: seq<SyncManager>, smtype: nat, bits: nat, i: nat, count: nat, d: nat)
    requires |sm| == EC_MAXSM && i < EC_MAXSM && 8 * count < bits && Enough(sm, smtype, bits, i, count)
    ensures var (e, c) := RunFrom(sm, smtype, bits, i, count);
            && (RunStraight(sm, smtype, bits, i, count) && count + d < c && 8 * (count + d) < bits ==>
                  AddressOf(sm, smtype, i, d) == Some(sm[NextOfType(sm, smtype, i)].StartAddr + d))
            && (8 * c < bits && count + d >= c ==>
                  AddressOf(sm, smtype, i, d) == AddressOf(sm, smtype, e, d - (c - count)))
            && c >= count + sm[NextOfType(sm, smtype, i)].SMlength
            && (8 * c < bits ==> e > i && Enough(sm, smtype, bits, e, c))
  {
    hide NextOfType;
    hide RunEnd;
    hide Supply;
    hide Straight;
    hide AddressOf;
    var j := NextOfType(sm, smtype, i);
    var n := sm[j].SMlength;
    AddressNext(sm, smtype, bits, i, count, d);
    RunProgress(sm, smtype, bits, j, count + n);
    StraightRun(sm, smtype, bits, j, count + n, sm[j].StartAddr + n, if d < n then 0 else d - n);
    hide Enough;
  }

  lemma {:induction false} RunMisplaced(sm: seq<SyncManager>, smtype: nat, bits: nat, i: nat, count: nat)
      returns (d: nat)
    requires |sm| == EC_MAXSM && i < EC_MAXSM && 8 * count < bits && Enough(sm, smtype, bits, i, count)
    requires NoneEmpty(sm, smtype) && !RunStraight(sm, smtype, bits, i, count)
    ensures count + d < RunFrom(sm, smtype, bits, i, count).1 && 8 * (count + d) < bits
    ensures AddressOf(sm, smtype, i, d) != Some(sm[NextOfType(sm, smtype, i)].StartAddr + d)
  {
    hide NextOfType;
    hide RunEnd;
    hide Supply;
    hide Straight;
    hide AddressOf;
    var j := NextOfType(sm, smtype, i);
    var n := sm[j].SMlength;
    AddressNext(sm, smtype, bits, i, count, 0);
    hide NoneEmpty;
    d := CrookedRun(sm, smtype, bits, j, count + n, sm[j].StartAddr + n);
    d := d + n;
    AddressNext(sm, smtype, bits, i, count, d);
    hide Enough;
  }

  /** The first window from an index on, and the others. */
  lemma {:induction false} MappedHead(
    sm: seq<SyncManager>, smtype: nat, bits: nat, i: nat, count: nat, done: nat, d: nat)
    requires |sm| == EC_MAXSM && i < EC_MAXSM && done < (bits + 7) / 8 && Enough(sm, smtype, bits, i, count)
    requires done >= count
    ensures var (e, c) := RunFrom(sm, smtype, bits, i, count);
            var rest := (bits + 7) / 8 - done;
            var size := if c > rest then rest else c;
            MappedTo(Windows(sm, smtype, bits, i, count, done), d)
            == if d < size then Some(sm[NextOfType(sm, smtype, i)].StartAddr + d)
               else MappedTo(Windows(sm, smtype, bits, e, c, done + size), d - size)
  {
    hide NextOfType;
    hide RunEnd;
    hide Supply;
    hide Windows;
    hide ByteFmmus;
    WindowsStep(sm, smtype, bits, i, count, done, 0, 0);
    hide Enough;
    var w := Windows(sm, smtype, bits, i, count, done);
    var (e, c) := RunFrom(sm, smtype, bits, i, count);
    var rest := (bits + 7) / 8 - done;
    assert w[1..] == Windows(sm, smtype, bits, e, c, done + if c > rest then rest else c);
  }

  lemma {:induction false} StraightStep(sm: seq<SyncManager>, smtype: nat, bits: nat, i: nat, count: nat, at: nat)
    requires |sm| == EC_MAXSM && i < EC_MAXSM - 1 && 8 * count < bits
    ensures var j := NextOfType(sm, smtype, i + 1);
            Straight(sm, smtype, bits, i, count, at)
            <==> sm[j].StartAddr > sm[i].StartAddr + sm[i].SMlength
                 || (sm[j].StartAddr == at
                     && Straight(sm, smtype, bits, j, count + sm[j].SMlength, at + sm[j].SMlength))
  {
    hide NextOfType;
  }

  /** Behind a straight run that is not enough there is a gap. */
  lemma {:induction false} GapBehind(sm: seq<SyncManager>, smtype: nat, bits: nat, i: nat, count: nat)
    requires |sm| == EC_MAXSM && i < EC_MAXSM && Enough(sm, smtype, bits, i + 1, count) && NoneEmpty(sm, smtype)
    requires var at := sm[i].StartAddr + sm[i].SMlength; Straight(sm, smtype, bits, i, count, at)
    requires 8 * RunEnd(sm, smtype, bits, i, count).1 < bits
    ensures var (e, c) := RunEnd(sm, smtype, bits, i, count);
            var a := AddressOf(sm, smtype, e, 0);
            c >= count && a.Some? && a.value > sm[i].StartAddr + sm[i].SMlength + c - count
    decreases EC_MAXSM - i
  {
    hide NextOfType;
    hide RunEnd;
    hide Supply;
    hide AddressOf;
    hide Straight;
    RunEndStep(sm, smtype, bits, i, count);
    StraightRun(sm, smtype, bits, i, count, 0, 0);
    SupplyStep(sm, smtype, EC_MAXSM);
    assert i == EC_MAXSM - 1 ==> 8 * count >= bits;
    var j := NextOfType(sm, smtype, i + 1);
    AddressNext(sm, smtype, bits, i + 1, count, 0);
    StraightStep(sm, smtype, bits, i, count, sm[i].StartAddr + sm[i].SMlength);
    hide Enough;
    if sm[j].StartAddr <= sm[i].StartAddr + sm[i].SMlength {
      GapBehind(sm, smtype, bits, j, count + sm[j].SMlength);
    }
  }

  /** Every byte of the data is mapped to where the sync managers have it. */
  ghost predicate Placed(sm: seq<SyncManager>, smtype: nat, bits: nat)
    requires |sm| == EC_MAXSM
  {
    forall d: nat :: 8 * d < bits ==> PlacedByte(sm, smtype, bits, d)
  }

  predicate PlacedByte(sm: seq<SyncManager>, smtype: nat, bits: nat, d: nat)
    requires |sm| == EC_MAXSM
  {
    MappedTo(Windows(sm, smtype, bits, 0, 0, 0), d) == AddressOf(sm, smtype, 0, d)
  }

  lemma {:induction false} FirstRun(sm: seq<SyncManager>, smtype: nat, bits: nat, d: nat)
    requires |sm| == EC_MAXSM && 8 * d < bits && Enough(sm, smtype, bits, 0, 0)
    requires d < RunFrom(sm, smtype, bits, 0, 0).1
    ensures PlacedByte(sm, smtype, bits, d)
            <==> AddressOf(sm, smtype, 0, d) == Some(sm[NextOfType(sm, smtype, 0)].StartAddr + d)
  {
    MappedHead(sm, smtype, bits, 0, 0, 0, d);
    hide MappedTo;
    hide AddressOf;
    hide Windows;
    hide NextOfType;
    hide Enough;
    hide RunFrom;
  }

  /** The second window takes in all the bytes that are left, or as many as were counted in both runs. */
  lemma {:induction false} SecondRun(sm: seq<SyncManager>, smtype: nat, bits: nat, d: nat)
    requires |sm| == EC_MAXSM && Enough(sm, smtype, bits, 0, 0) && bits > 0
    requires var (e, c) := RunFrom(sm, smtype, bits, 0, 0);
             8 * (c + d) < bits && d < RunFrom(sm, smtype, bits, e, c).1
    ensures var (e, c) := RunFrom(sm, smtype, bits, 0, 0);
            && e > 0 && Enough(sm, smtype, bits, e, c)
            && (PlacedByte(sm, smtype, bits, c + d)
                <==> AddressOf(sm, smtype, e, d) == Some(sm[NextOfType(sm, smtype, e)].StartAddr + d))
  {
    hide MappedTo;
    hide AddressOf;
    hide Windows;
    hide NextOfType;
    hide Enough;
    hide RunFrom;
    hide RunStraight;
    var (e, c) := RunFrom(sm, smtype, bits, 0, 0);
    MappedHead(sm, smtype, bits, 0, 0, 0, c + d);
    RunPlaced(sm, smtype, bits, 0, 0, c + d);
    MappedHead(sm, smtype, bits, e, c, c, d);
  }

  /** The data of a slave are mapped to where its sync managers have them if and only if at most two
      runs of sync managers are needed, and these are straight. */
  lemma {:induction false} PlacedIffTwoRuns(sm: seq<SyncManager>, smtype: nat, bits: nat)
    requires |sm| == EC_MAXSM && bits > 0 && Enough(sm, smtype, bits, 0, 0) && NoneEmpty(sm, smtype)
    ensures Placed(sm, smtype, bits) <==> TwoRuns(sm, smtype, bits)
  {
    hide *;
    if TwoRuns(sm, smtype, bits) {
      TwoRunsSuffice(sm, smtype, bits);
    } else {
      ThirdRunIsLost(sm, smtype, bits);
    }
  }

  lemma {:induction false} TwoRunsSuffice(sm: seq<SyncManager>, smtype: nat, bits: nat)
    requires |sm| == EC_MAXSM && bits > 0 && Enough(sm, smtype, bits, 0, 0) && NoneEmpty(sm, smtype)
    requires TwoRuns(sm, smtype, bits)
    ensures Placed(sm, smtype, bits)
  {
    hide NextOfType;
    hide Enough;
    hide PlacedByte;
    hide RunFrom;
    hide RunStraight;
    var (e, c) := RunFrom(sm, smtype, bits, 0, 0);
    forall d: nat | 8 * d < bits ensures PlacedByte(sm, smtype, bits, d) {
      if d < c {
        RunPlaced(sm, smtype, bits, 0, 0, d);
        FirstRun(sm, smtype, bits, d);
      } else {
        RunPlaced(sm, smtype, bits, 0, 0, d);
        RunPlaced(sm, smtype, bits, e, c, d - c);
        SecondRun(sm, smtype, bits, d - c);
      }
    }
  }

  lemma {:induction false} ThirdRunIsLost(sm: seq<SyncManager>, smtype: nat, bits: nat)
    requires |sm| == EC_MAXSM && bits > 0 && Enough(sm, smtype, bits, 0, 0) && NoneEmpty(sm, smtype)
    requires !TwoRuns(sm, smtype, bits)
    ensures !Placed(sm, smtype, bits)
  {
    hide NextOfType;
    hide Enough;
    hide PlacedByte;
    hide RunFrom;
    hide RunStraight;
    hide NoneEmpty;
    if !RunStraight(sm, smtype, bits, 0, 0) {
      var d := RunMisplaced(sm, smtype, bits, 0, 0);
      FirstRun(sm, smtype, bits, d);
      assert !PlacedByte(sm, smtype, bits, d);
    } else {
      RunPlaced(sm, smtype, bits, 0, 0, 0);
      var (e, c) := RunFrom(sm, smtype, bits, 0, 0);
      if !RunStraight(sm, smtype, bits, e, c) {
        var d := RunMisplaced(sm, smtype, bits, e, c);
        SecondRun(sm, smtype, bits, d);
        assert !PlacedByte(sm, smtype, bits, c + d);
      } else {
        SecondIsTooLong(sm, smtype, bits);
      }
    }
  }

  lemma {:induction false} SecondIsTooLong(sm: seq<SyncManager>, smtype: nat, bits: nat)
    requires |sm| == EC_MAXSM && bits > 0 && Enough(sm, smtype, bits, 0, 0) && NoneEmpty(sm, smtype)
    requires var (e, c) := RunFrom(sm, smtype, bits, 0, 0);
             8 * c < bits && RunStraight(sm, smtype, bits, e, c) && 8 * RunFrom(sm, smtype, bits, e, c).1 < bits
    ensures !Placed(sm, smtype, bits)
  {
    hide NextOfType;
    hide Enough;
    hide PlacedByte;
    hide RunFrom;
    hide RunStraight;
    RunPlaced(sm, smtype, bits, 0, 0, 0);
    FirstHasData(sm, smtype, bits);
    hide NoneEmpty;
    var (e, c) := RunFrom(sm, smtype, bits, 0, 0);
    var (e1, c1) := RunFrom(sm, smtype, bits, e, c);
    RunGap(sm, smtype, bits, e, c);
    RunPlaced(sm, smtype, bits, e, c, c1 - c);
    SecondRun(sm, smtype, bits, c1 - c);
    assert !PlacedByte(sm, smtype, bits, c + (c1 - c));
  }

  lemma {:induction false} FirstHasData(sm: seq<SyncManager>, smtype: nat, bits: nat)
    requires |sm| == EC_MAXSM && bits > 0 && Enough(sm, smtype, bits, 0, 0) && NoneEmpty(sm, smtype)
    ensures RunFrom(sm, smtype, bits, 0, 0).1 > 0
  {
    hide NextOfType;
    hide RunEnd;
    hide Enough;
    NextIsOfType(sm, smtype, bits, 0, 0);
  }

  lemma {:induction false} RunGap(sm: seq<SyncManager>, smtype: nat, bits: nat, i: nat, count: nat)
    requires |sm| == EC_MAXSM && i < EC_MAXSM && 8 * count < bits && Enough(sm, smtype, bits, i, count)
    requires NoneEmpty(sm, smtype) && RunStraight(sm, smtype, bits, i, count)
    requires 8 * RunFrom(sm, smtype, bits, i, count).1 < bits
    ensures var (e, c) := RunFrom(sm, smtype, bits, i, count);
            var a := AddressOf(sm, smtype, e, 0);
            c >= count && a.Some? && a.value > sm[NextOfType(sm, smtype, i)].StartAddr + c - count
  {
    hide NextOfType;
    hide RunEnd;
    hide Supply;
    hide AddressOf;
    hide Straight;
    var j := NextOfType(sm, smtype, i);
    AddressNext(sm, smtype, bits, i, count, 0);
    hide Enough;
    GapBehind(sm, smtype, bits, j, count + sm[j].SMlength);
  }

  /** A slave with three separate sync managers for six output bytes: the second FMMU reaches two bytes
      beyond its sync manager, and the third sync manager gets no FMMU. */
  lemma {:induction false} ThreeRunsHappen() returns (sm: seq<SyncManager>)
    ensures |sm| == EC_MAXSM && NoneEmpty(sm, 3) && Enough(sm, 3, 48, 0, 0)
    ensures Windows(sm, 3, 48, 0, 0, 0) == [Window(0x1000, 2), Window(0x1100, 4)]
    ensures AddressOf(sm, 3, 0, 4) == Some(0x1200) && !Placed(sm, 3, 48)
  {
    sm := [SyncManager(0x1000, 2, 3), SyncManager(0x1100, 2, 3), SyncManager(0x1200, 2, 3)]
      + seq(EC_MAXSM - 3, i => SyncManager(0, 0, 0));
    SupplySkips(sm, 3, 3, EC_MAXSM);
    assert Supply(sm, 3, 0) == 6;
    assert RunEnd(sm, 3, 48, 0, 2) == (1, 2);
    assert RunEnd(sm, 3, 48, 1, 4) == (2, 4);
    assert Windows(sm, 3, 48, 2, 4, 6) == [];
    assert Windows(sm, 3, 48, 1, 2, 2) == [Window(0x1100, 4)];
    var w := Windows(sm, 3, 48, 0, 0, 0);
    assert w[1..] == [Window(0x1100, 4)];
    assert AddressOf(sm, 3, 2, 0) == Some(0x1200) && AddressOf(sm, 3, 1, 2) == Some(0x1200);
    assert MappedTo(w[1..], 2) == Some(0x1102);
    assert !PlacedByte(sm, 3, 48, 4);
  }
}
