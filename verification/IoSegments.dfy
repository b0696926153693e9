/** Packing the process image into segments that fit a datagram (ec_config.c). */
module IoSegments {
  import opened EcTypes

  const EC_MAXECATFRAME: nat := 1518
  const EC_FIRSTDCDATAGRAM: nat := 20
  const EC_MAXLRWDATA: nat := EC_MAXECATFRAME - 14 - 2 - 10 - 2 - 4
  const EC_MAXIOSEGMENTS: nat := 64

  /** The packer in the middle of its work: finished segments, bytes in the segment that is
      still open, the size limit in force, and the working counter to expect so far. */
  datatype Packer = Packer(closed: seq<nat>, open: nat, max: nat, wkc: nat)

  const Empty: Packer := Packer([], 0, EC_MAXLRWDATA - EC_FIRSTDCDATAGRAM, 0)

  /** Bytes packed so far. */
  function Total(p: Packer): nat {
    Sum(p.closed) + p.open
  }

  /** Finishes the open segment; only the first one accounts for the DC datagram. */
  function Close(p: Packer): Packer {
    Packer(p.closed + [p.open], 0, EC_MAXLRWDATA, p.wkc)
  }

  /** Cuts full segments off the open one; each holds data of the slave at hand. */
  function Split(p: Packer): (r: Packer)
    requires 0 < p.max <= EC_MAXLRWDATA
    ensures 0 < r.max <= EC_MAXLRWDATA && r.open <= r.max
    decreases p.open
  {
    if p.open > p.max then Split(Packer(p.closed + [p.max], p.open - p.max, EC_MAXLRWDATA, p.wkc + 1))
    else p
  }

  /** Adds the image of one slave, `diff` bytes. */
  function AddImage(p: Packer, diff: nat): (r: Packer)
    requires 0 < p.max <= EC_MAXLRWDATA
    ensures 0 < r.max <= EC_MAXLRWDATA && r.open <= r.max
  {
    var p1 := if p.open + diff > p.max && diff <= p.max then Close(p) else p;
    var p2 := Split(p1.(open := p1.open + diff));
    if p2.open > 0 && diff > 0 then p2.(wkc := p2.wkc + 1) else p2
  }

  /** Adds the byte that ends in a partly used last byte of packed bits. */
  function AddPadding(p: Packer): (r: Packer)
  {
    if p.open + 1 > p.max then Close(p).(open := 1, wkc := p.wkc + 1) else p.(open := p.open + 1)
  }

  /** Adds the mailbox status byte of a slave, or nothing if it has no mailbox. */
  function AddStatus(p: Packer, diff: nat): Packer {
    if p.open + diff > EC_MAXLRWDATA - EC_FIRSTDCDATAGRAM then p.(closed := p.closed + [p.open], open := diff)
    else p.(open := p.open + diff)
  }

  /** The segments as they are sent: the finished ones and the open one. */
  function Segments(p: Packer): seq<nat> {
    p.closed + [p.open]
  }

  /** The first segment leaves room for the DC datagram, the others fit a frame. */
  ghost predicate Fits(p: Packer) {
    && (forall k :: 0 <= k < |p.closed| ==> p.closed[k] <= EC_MAXLRWDATA)
    && (|p.closed| > 0 ==> p.closed[0] <= EC_MAXLRWDATA - EC_FIRSTDCDATAGRAM)
    && p.open <= p.max == (if |p.closed| == 0 then EC_MAXLRWDATA - EC_FIRSTDCDATAGRAM else EC_MAXLRWDATA)
  }

  lemma {:induction false} TotalOfClose(p: Packer, last: nat, open: nat, max: nat, wkc: nat)
    ensures Total(Packer(p.closed + [last], open, max, wkc)) == Sum(p.closed) + last + open
  {
    SumConcat(p.closed, [last]);
    assert Sum([last]) == last;
  }

  /** Splitting keeps the bytes and the limits, and only appends to the finished segments. */
  lemma {:induction false} SplitKeeps(p: Packer)
    requires 0 < p.max <= EC_MAXLRWDATA && Fits(p.(open := 0))
    ensures var r := Split(p);
            Total(r) == Total(p) && Fits(r) && p.closed <= r.closed && (p.open > 0 ==> r.open > 0)
    decreases p.open
  {
    if p.open > p.max {
      var next := Packer(p.closed + [p.max], p.open - p.max, EC_MAXLRWDATA, p.wkc + 1);
      TotalOfClose(p, p.max, p.open - p.max, EC_MAXLRWDATA, p.wkc + 1);
      SplitKeeps(next);
    }
  }

  /** Adding an image keeps the limits, and no byte is lost. */
  lemma {:induction false} AddImageKeeps(p: Packer, diff: nat)
    requires Fits(p)
    ensures var r := AddImage(p, diff);
            Total(r) == Total(p) + diff && Fits(r) && p.closed <= r.closed
  {
    var p1 := if p.open + diff > p.max && diff <= p.max then Close(p) else p;
    TotalOfClose(p, p.open, 0, EC_MAXLRWDATA, p.wkc);
    SplitKeeps(p1.(open := p1.open + diff));
  }

  /** The byte that is filled up counts if it begins a segment. */
  lemma {:induction false} AddPaddingKeeps(p: Packer)
    requires Fits(p)
    ensures var r := AddPadding(p);
            && Total(r) == Total(p) + 1 && Fits(r) && p.closed <= r.closed
            && r.wkc == p.wkc + |r.closed| - |p.closed|
  {
    TotalOfClose(p, p.open, 1, EC_MAXLRWDATA, p.wkc + 1);
  }

  /** An image that fits the limit in force is not cut: it lies in the segment that is open
      afterwards, and counts once. */
  lemma {:induction false} FittingImageIsNotCut(p: Packer, diff: nat)
    requires Fits(p) && 0 < diff <= p.max
    ensures var r := AddImage(p, diff);
            && Sum(r.closed) <= Total(p) && Total(p) + diff == Total(r)
            && r.wkc == p.wkc + 1
  {
    var p1 := if p.open + diff > p.max then Close(p) else p;
    assert p1.open + diff <= p1.max;
    TotalOfClose(p, p.open, 0, EC_MAXLRWDATA, p.wkc);
  }

  // Working counters

  /** How many of the segments, the first one starting at `start`, hold bytes of [lo, hi). */
  function Touched(segments: seq<nat>, start: nat, lo: nat, hi: nat): nat {
    if segments == [] then 0
    else
      var end := start + segments[0];
      (if start < hi && lo < end && lo < hi && start < end then 1 else 0) + Touched(segments[1..], end, lo, hi)
  }

  /** The segments that are known by now stay what they are, except that the open one grows. */
  ghost predicate Extends(final: seq<nat>, p: Packer) {
    && |final| > |p.closed|
    && final[..|p.closed|] == p.closed
    && final[|p.closed|] >= p.open
  }

  lemma {:induction false} TouchedConcat(a: seq<nat>, b: seq<nat>, start: nat, lo: nat, hi: nat)
    ensures Touched(a + b, start, lo, hi) == Touched(a, start, lo, hi) + Touched(b, start + Sum(a), lo, hi)
  {
    if a == [] {
      assert a + b == b;
    } else {
      assert (a + b)[1..] == a[1..] + b;
      TouchedConcat(a[1..], b, start + a[0], lo, hi);
    }
  }

  lemma {:induction false} TouchedNone(s: seq<nat>, start: nat, lo: nat, hi: nat)
    requires hi <= start || start + Sum(s) <= lo
    ensures Touched(s, start, lo, hi) == 0
  {
    if s != [] {
      TouchedNone(s[1..], start + s[0], lo, hi);
    }
  }

  /** The segments that `Split` cuts, and what is left open, hold the data from `lo` on that
      lies in the open segment, if its first cut does. */
  lemma {:induction false} SplitTouches(x: Packer, lo: nat, final: seq<nat>)
    requires 0 < x.max <= EC_MAXLRWDATA && Extends(final, Split(x)) && x.closed <= Split(x).closed
    requires lo < Sum(x.closed) + x.max && lo < Total(x)
    ensures Touched(final[|x.closed|..], Sum(x.closed), lo, Total(x))
            == Split(x).wkc - x.wkc + (if Split(x).open > 0 then 1 else 0)
    decreases x.open
  {
    var n := |x.closed|;
    var r := Split(x);
    var rest := final[n..];
    if x.open > x.max {
      var next := Packer(x.closed + [x.max], x.open - x.max, EC_MAXLRWDATA, x.wkc + 1);
      TotalOfClose(x, x.max, 0, EC_MAXLRWDATA, x.wkc + 1);
      SplitExtends(next);
      assert final[n] == x.max by { assert next.closed[n] == r.closed[n] == final[..|r.closed|][n]; }
      assert rest[1..] == final[|next.closed|..];
      SplitTouches(next, lo, final);
    } else {
      TouchedNone(rest[1..], Sum(x.closed) + rest[0], lo, Total(x));
    }
  }

  lemma {:induction false} SplitExtends(x: Packer)
    requires 0 < x.max <= EC_MAXLRWDATA
    ensures x.closed <= Split(x).closed
    decreases x.open
  {
    if x.open > x.max {
      SplitExtends(Packer(x.closed + [x.max], x.open - x.max, EC_MAXLRWDATA, x.wkc + 1));
    }
  }

  /** A segment that the image before has filled exactly, and that a larger image follows. */
  predicate FullBeforeLarge(p: Packer, diff: nat) {
    p.open == p.max && diff > p.max
  }

  /** The expected working counter grows by the number of segments the image lies in, and by
      one too much in exactly one case: a full segment followed by an image that is cut. */
  lemma {:induction false} WkcCountsTouchedSegments(p: Packer, diff: nat, final: seq<nat>)
    requires Fits(p) && diff > 0 && Extends(final, AddImage(p, diff))
    ensures Touched(final, 0, Total(p), Total(p) + diff) + (if FullBeforeLarge(p, diff) then 1 else 0)
            == AddImage(p, diff).wkc - p.wkc
  {
    hide Touched;
    hide Sum;
    var lo := Total(p);
    var p1 := if p.open + diff > p.max && diff <= p.max then Close(p) else p;
    var x := p1.(open := p1.open + diff);
    TotalOfClose(p, p.open, diff, EC_MAXLRWDATA, p.wkc);
    AddImageKeeps(p, diff);
    SplitExtends(x);
    if FullBeforeLarge(p, diff) {
      var next := Packer(p.closed + [p.max], diff, EC_MAXLRWDATA, p.wkc + 1);
      assert Split(x) == Split(next);
      SplitExtends(next);
      StartsAt(next, lo, final);
    } else {
      StartsAt(x, lo, final);
    }
  }

  /** What lies before the open segment of `x` does not count. */
  lemma {:induction false} StartsAt(x: Packer, lo: nat, final: seq<nat>)
    requires 0 < x.max <= EC_MAXLRWDATA && Extends(final, Split(x)) && x.closed <= Split(x).closed
    requires Sum(x.closed) <= lo < Sum(x.closed) + x.max && lo < Total(x)
    ensures Touched(final, 0, lo, Total(x)) == Split(x).wkc - x.wkc + (if Split(x).open > 0 then 1 else 0)
  {
    var n := |x.closed|;
    assert final == final[..n] + final[n..];
    assert final[..n] == x.closed by { assert final[..|Split(x).closed|][..n] == x.closed; }
    TouchedConcat(final[..n], final[n..], 0, lo, Total(x));
    TouchedNone(final[..n], 0, lo, Total(x));
    SplitTouches(x, lo, final);
  }

  lemma {:induction false} ExtendsBefore(p: Packer, diff: nat, final: seq<nat>)
    requires Fits(p) && Extends(final, AddImage(p, diff))
    ensures Extends(final, p)
  {
    var r := AddImage(p, diff);
    var p1 := if p.open + diff > p.max && diff <= p.max then Close(p) else p;
    var x := p1.(open := p1.open + diff);
    var n := |p.closed|;
    SplitExtends(x);
    FirstCut(x);
    assert final[..|r.closed|][..n] == final[..n];
    if |r.closed| > n {
      assert final[n] == r.closed[n];
      if |x.closed| > n {
        assert r.closed[n] == x.closed[n] == p.open;
      }
    }
  }

  lemma {:induction false} FirstCut(x: Packer)
    requires 0 < x.max <= EC_MAXLRWDATA
    ensures |Split(x).closed| > |x.closed| ==> Split(x).closed[|x.closed|] == x.max
    ensures |Split(x).closed| == |x.closed| ==> Split(x) == x
  {
    if x.open > x.max {
      SplitExtends(Packer(x.closed + [x.max], x.open - x.max, EC_MAXLRWDATA, x.wkc + 1));
    }
  }

  lemma {:induction false} ExtendsBeforePadding(p: Packer, final: seq<nat>)
    requires Fits(p) && Extends(final, AddPadding(p))
    ensures Extends(final, p)
  {
    var r := AddPadding(p);
    assert final[..|r.closed|][..|p.closed|] == final[..|p.closed|];
  }

  /** What holds of the segments in the end, and while status bytes are added. */
  ghost predicate SegmentsFit(p: Packer) {
    && (forall k :: 0 <= k < |p.closed| ==> p.closed[k] <= EC_MAXLRWDATA)
    && p.open <= EC_MAXLRWDATA
    && (if |p.closed| > 0 then p.closed[0] else p.open) <= EC_MAXLRWDATA - EC_FIRSTDCDATAGRAM
  }

  lemma {:induction false} AddStatusKeeps(p: Packer, diff: nat)
    requires SegmentsFit(p) && diff <= 1
    ensures SegmentsFit(AddStatus(p, diff)) && Total(AddStatus(p, diff)) == Total(p) + diff
    ensures var r := AddStatus(p, diff);
            && |r.closed| == |p.closed| + (if p.open + diff > 1466 then 1 else 0) && r.wkc == p.wkc
    ensures forall final: seq<nat> :: Extends(final, AddStatus(p, diff)) ==> Extends(final, p)
  {
    TotalOfClose(p, p.open, diff, p.max, p.wkc);
    var r := AddStatus(p, diff);
    forall final: seq<nat> | Extends(final, r) ensures Extends(final, p) {
      assert final[..|r.closed|][..|p.closed|] == final[..|p.closed|];
    }
  }
}
