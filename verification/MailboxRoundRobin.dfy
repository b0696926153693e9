/** Fetching incoming mailboxes (ec_main.c, `ecx_mbxinhandler`): each call goes on where the last
    one stopped, and stops when its limit of work is reached. */
module MailboxRoundRobin {
  import opened EcTypes

  /** One call: its limit, and for each position it may visit in turn, whether there is work. */
  datatype Call = Call(limit: int, works: seq<bool>)

  /** Work done in the first `k` visits. */
  function WorkIn(works: seq<bool>, k: nat): nat
    requires k <= |works|
  {
    if k == 0 then 0 else WorkIn(works, k - 1) + (if works[k - 1] then 1 else 0)
  }

  /** How many positions a call visits from visit `k` on. */
  function Visits(call: Call, n: nat, k: nat): (v: nat)
    requires k <= n <= |call.works|
    ensures v <= n - k && (k < n ==> v > 0)
    decreases n - k
  {
    if k == n then 0
    else if call.works[k] && WorkIn(call.works, k + 1) >= call.limit then 1
    else 1 + Visits(call, n, k + 1)
  }

  /** The `i`-th position behind position `last`, going round. */
  function Position(last: nat, i: nat, n: nat): (p: nat)
    requires n > 0
    ensures p < n
  {
    (last + 1 + i) % n
  }

  /** `k` positions behind `last`, in order. */
  function RoundFrom(last: nat, k: nat, n: nat): (r: seq<nat>)
    requires n > 0
    ensures |r| == k && forall i :: 0 <= i < k ==> r[i] == Position(last, i, n)
  {
    seq(k, i requires 0 <= i < k => Position(last, i, n))
  }

  /** One call of the handler: the positions it visits follow the last one without a gap. */
  method MbxInHandler(mbxstatuslength: nat, lastmbxpos0: nat, call: Call)
      returns (limitcnt: nat, lastmbxpos: nat, visited: seq<nat>)
    requires |call.works| >= mbxstatuslength > lastmbxpos0
    ensures visited == RoundFrom(lastmbxpos0, Visits(call, mbxstatuslength, 0), mbxstatuslength)
    ensures |visited| > 0 && lastmbxpos == visited[|visited| - 1]
    ensures limitcnt == WorkIn(call.works, |visited|)
    ensures |visited| < mbxstatuslength ==> limitcnt >= call.limit
    // and it ends as soon as a visit with work has reached the limit
    ensures forall k :: 0 < k < |visited| && call.works[k - 1] ==> WorkIn(call.works, k) < call.limit
    ensures |visited| < mbxstatuslength ==> call.works[|visited| - 1]
  {
    var maxcnt, maxcntstored := mbxstatuslength, mbxstatuslength;
    var firstmbxpos := lastmbxpos0 + 1;
    limitcnt, lastmbxpos, visited := 0, lastmbxpos0, [];
    var cnt := 0;
    while cnt < maxcnt
      invariant cnt == |visited| <= mbxstatuslength && (maxcnt == mbxstatuslength || maxcnt == 0)
      invariant limitcnt == WorkIn(call.works, cnt)
      invariant forall i :: 0 <= i < cnt ==> visited[i] == Position(lastmbxpos0, i, mbxstatuslength)
      invariant cnt > 0 ==> lastmbxpos == visited[cnt - 1]
      invariant maxcnt > 0 ==> Visits(call, mbxstatuslength, 0) == cnt + Visits(call, mbxstatuslength, cnt)
      invariant maxcnt == 0 ==> cnt > 0 && Visits(call, mbxstatuslength, 0) == cnt && limitcnt >= call.limit
      invariant maxcnt == 0 ==> call.works[cnt - 1]
      invariant forall k :: 0 < k <= cnt && (k < cnt || maxcnt > 0) && call.works[k - 1] ==>
        WorkIn(call.works, k) < call.limit
      decreases mbxstatuslength - cnt
    {
      // start behind the last stored position to allow fair handling under load
      var cntoffset := firstmbxpos + cnt;
      if cntoffset >= maxcntstored {
        cntoffset := cntoffset - maxcntstored;
      }
      WrapOnce(lastmbxpos0 + 1 + cnt, mbxstatuslength);
      lastmbxpos := cntoffset;
      visited := visited + [cntoffset];
      if call.works[cnt] {
        // keep track of work limit
        limitcnt := limitcnt + 1;
        if limitcnt >= call.limit {
          maxcnt := 0;
        }
      }
      cnt := cnt + 1;
    }
  }

  lemma {:induction false} WrapOnce(x: nat, n: nat)
    requires 0 < n && x < 2 * n
    ensures x % n == if x >= n then x - n else x
  {
    if x >= n {
      assert x == n * 1 + (x - n);
      ModIs(x, n, 1, x - n);
    } else {
      ModIs(x, n, 0, x);
    }
  }

  /** All positions that a sequence of calls visits. */
  ghost function AllVisits(calls: seq<Call>, last: nat, n: nat): seq<nat>
    requires n > last && forall c :: 0 <= c < |calls| ==> |calls[c].works| >= n
  {
    if calls == [] then []
    else
      var k := Visits(calls[0], n, 0);
      RoundFrom(last, k, n) + AllVisits(calls[1..], Position(last, k - 1, n), n)
  }

  lemma {:induction false} BehindBehind(last: nat, k: nat, i: nat, n: nat)
    requires n > 0 && k > 0
    ensures Position(Position(last, k - 1, n), i, n) == Position(last, k + i, n)
  {
    var x := last + k;
    var q := x / n;
    assert x == n * q + x % n;
    var y := x % n + 1 + i;
    assert last + 1 + (k + i) == n * q + y;
    var p := y / n;
    assert y == n * p + y % n;
    assert n * q + n * p == n * (q + p);
    ModIs(last + 1 + (k + i), n, q + p, y % n);
  }

  /** Whatever the limits and whatever the work: successive calls together go round the positions
      without a gap. */
  lemma {:induction false} RoundWithoutGap(calls: seq<Call>, last: nat, n: nat, i: nat)
    requires n > last && forall c :: 0 <= c < |calls| ==> |calls[c].works| >= n
    requires i < |AllVisits(calls, last, n)|
    ensures AllVisits(calls, last, n)[i] == Position(last, i, n)
    decreases |calls|
  {
    var k := Visits(calls[0], n, 0);
    hide Position;
    if i >= k {
      RoundWithoutGap(calls[1..], Position(last, k - 1, n), n, i - k);
      BehindBehind(last, k, i - k, n);
    }
  }

  /** No position is starved: in any `n` visits in a row there is one to every position. */
  lemma {:induction false} EveryPositionHasItsTurn(calls: seq<Call>, last: nat, n: nat, i: nat, p: nat) returns (j: nat)
    requires n > last && forall c :: 0 <= c < |calls| ==> |calls[c].works| >= n
    requires i + n <= |AllVisits(calls, last, n)| && p < n
    ensures i <= j < i + n && AllVisits(calls, last, n)[j] == p
  {
    hide AllVisits;
    var d := NextTurn(last + 1 + i, n, p);
    j := i + d;
    RoundWithoutGap(calls, last, n, j);
  }

  lemma {:induction false} NextTurn(x: nat, n: nat, p: nat) returns (d: nat)
    requires p < n
    ensures d < n && (x + d) % n == p
  {
    var q, start := x / n, x % n;
    assert x == n * q + start;
    if p >= start {
      d := p - start;
      ModIs(x + d, n, q, p);
    } else {
      d := p + n - start;
      assert n * q + n == n * (q + 1);
      ModIs(x + d, n, q + 1, p);
    }
  }
}
