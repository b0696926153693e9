/** Whole runs of clients and handler on one mailbox queue. */
module MailboxRuns {
  import opened EcTypes
  import opened MailboxPool
  import opened MailboxQueue
  import opened MailboxSystem
  import opened MailboxSafety

  /** The state that initialisation leaves: every buffer in the pool, every ticket free. */
  function Init(): Sys {
    Sys(Queue(seq(EC_MBXPOOLSIZE, _ => -1), seq(EC_MBXPOOLSIZE, _ => 0), seq(EC_MBXPOOLSIZE, _ => None),
              seq(EC_MBXPOOLSIZE, _ => false), seq(EC_MBXPOOLSIZE, _ => NONE), 0, 0, 0),
        seq(EC_MBXPOOLSIZE, b => b), {}, map[], Idle, [], 0)
  }

  /** A run takes turns from the initial state; a step outside the arrays may lead anywhere. */
  ghost predicate IsRun(st: seq<Sys>, acts: seq<Action>) {
    && |st| == |acts| + 1
    && st[0] == Init()
    && forall i :: 0 <= i < |acts| ==>
         Turn(st[i], acts[i]) && (InBounds(st[i], acts[i]) ==> st[i + 1] == Step(st[i], acts[i]))
  }

  lemma {:induction false} InitIsSafe()
    ensures Inv(Init())
  {
    var s := Init();
    var place := seq(EC_MBXPOOLSIZE, _ => InPool);
    forall b | 0 <= b < EC_MBXPOOLSIZE ensures b in s.free {
      assert s.free[b] == b;
    }
    assert Places(s, place);
  }

  /** Up to its first stale drop, every run stays inside the arrays and in the invariant. */
  lemma {:induction false} RunIsSafe(st: seq<Sys>, acts: seq<Action>, n: nat)
    requires IsRun(st, acts) && n <= |acts|
    requires forall i :: 0 <= i < n ==> !StaleDrop(st[i], acts[i])
    ensures Inv(st[n])
    ensures forall i :: 0 <= i < n ==> InBounds(st[i], acts[i])
  {
    hide Inv;
    if n == 0 {
      InitIsSafe();
    } else {
      RunIsSafe(st, acts, n - 1);
      StepKeepsInv(st[n - 1], acts[n - 1]);
    }
  }

  /** A stale drop leaves an entry in the ring that is not removed and has no ticket. */
  lemma {:induction false} StaleDropBreaks(s: Sys, a: Action)
    requires Inv(s) && Turn(s, a) && StaleDrop(s, a)
    ensures s.q.listcount == EC_MBXPOOLSIZE && InBounds(s, a)
    ensures var s' := Step(s, a);
            && InRing(s'.q, s.pc.loc) && !s'.q.mbxremove[s.pc.loc] && !HasTicket(s'.q, s'.req, s.pc.loc)
    ensures !Inv(Step(s, a))
  {
    hide Places;
    hide Denotes;
    var s' := Step(s, a);
    forall k | k in s'.req && 0 <= k < |s'.q.mbxticket| ensures s'.q.mbxticket[k] != s.pc.loc {
      assert InUse(s.q, k) && !s.q.mbxremove[s.q.mbxticket[k]];
    }
    assert !HasTicket(s'.q, s'.req, s.pc.loc);
    assert !Covered(s'.q, s'.req);
  }

  /** What is lost by it: the entry at the tail, which nobody has looked at, leaves the ring. If it
      is a request, its owner keeps a ticket for a place outside the ring; if it is marked for
      removal, the mark stays behind outside the ring. */
  lemma {:induction false} StaleDropLosesTail(s: Sys, a: Action)
    requires Inv(s) && Turn(s, a) && StaleDrop(s, a)
    ensures InBounds(s, a)
    ensures var s', tail := Step(s, a), s.q.listtail;
            && InRing(s.q, tail) && !InRing(s'.q, tail)
            && (exists k :: k in s'.req && InUse(s'.q, k) && s'.q.mbxticket[k] == tail && s'.req[k] == s.req[k])
               == !s.q.mbxremove[tail]
            && s'.q.mbxremove[tail] == s.q.mbxremove[tail]
  {
    hide Places;
    hide Denotes;
    StaleDropBreaks(s, a);
    var s', tail := Step(s, a), s.q.listtail;
    assert InRing(s.q, tail);
    if !s.q.mbxremove[tail] {
      assert HasTicket(s.q, s.req, tail);
      var k :| k in s.req && 0 <= k < |s.q.mbxticket| && s.q.mbxticket[k] == tail;
      assert k in s'.req && InUse(s'.q, k) && s'.q.mbxticket[k] == tail;
    } else {
      forall k | k in s'.req && InUse(s'.q, k) ensures s'.q.mbxticket[k] != tail {
        assert !s.q.mbxremove[s.q.mbxticket[k]];
      }
    }
  }

  /** The exact condition: a step keeps the invariant unless it is a stale drop. */
  lemma {:induction false} StepKeepsInvIff(s: Sys, a: Action)
    requires Inv(s) && Turn(s, a)
    ensures InBounds(s, a)
    ensures Inv(Step(s, a)) <==> !StaleDrop(s, a)
  {
    hide Inv;
    if StaleDrop(s, a) {
      StaleDropBreaks(s, a);
    } else {
      StepKeepsInv(s, a);
    }
  }

  /** Clients that never fill the ring are safe from it. */
  lemma {:induction false} RunThatNeverFillsIsSafe(st: seq<Sys>, acts: seq<Action>, n: nat)
    requires IsRun(st, acts) && n <= |acts|
    requires forall i :: 0 <= i < n ==> st[i].q.listcount < EC_MBXPOOLSIZE
    ensures Inv(st[n])
    ensures forall i :: 0 <= i < n ==> InBounds(st[i], acts[i])
  {
    hide Inv;
    if n == 0 {
      InitIsSafe();
    } else {
      RunThatNeverFillsIsSafe(st, acts, n - 1);
      if StaleDrop(st[n - 1], acts[n - 1]) {
        StaleDropBreaks(st[n - 1], acts[n - 1]);
      }
      StepKeepsInv(st[n - 1], acts[n - 1]);
    }
  }

  /** What a ticket is worth to its owner: once the queue reports its request as done, the
      owner's buffer has been written to the owner's slave, after the request was made. */
  lemma {:induction false} DoneMeansSent(s: Sys, ticket: int)
    requires Inv(s) && ticket in s.req
    ensures InUse(s.q, ticket)
    ensures Finish(s.q, ticket).1 ==> WasSent(s.log, s.req[ticket])
  {
    hide Places;
    assert Denotes(s.q, s.q.mbxticket[ticket], s.req[ticket], s.log);
  }

  /** The slot that owns a buffer is the only one, and the pool lists a buffer once. */
  lemma {:induction false} BufferOnce(s: Sys)
    requires Inv(s)
    ensures forall l, m :: Owns(s.q, s.pc, l) && Owns(s.q, s.pc, m) && s.q.mbx[l] == s.q.mbx[m] ==> l == m
    ensures forall i, j :: 0 <= i < j < |s.free| ==> s.free[i] != s.free[j]
  {
    hide Tickets;
    hide InRing;
    hide Owns;
    var place :| Places(s, place);
  }

  /** No pool buffer is lost and none is in two places, nor twice in one. */
  lemma {:induction false} EveryBufferHasOnePlace(s: Sys, b: nat)
    requires Inv(s) && b < EC_MBXPOOLSIZE
    ensures var inPool, atClient := b in s.free, b in s.held;
            var inSlot := exists loc :: Owns(s.q, s.pc, loc) && s.q.mbx[loc] == Some(b);
            var atHandler := s.pc == HandBack(Some(b));
            && (inPool || atClient || inSlot || atHandler)
            && !(inPool && atClient) && !(inPool && inSlot) && !(inPool && atHandler)
            && !(atClient && inSlot) && !(atClient && atHandler) && !(inSlot && atHandler)
    ensures forall l, m :: Owns(s.q, s.pc, l) && Owns(s.q, s.pc, m) && s.q.mbx[l] == s.q.mbx[m] == Some(b) ==> l == m
    ensures forall i, j :: 0 <= i < j < |s.free| ==> s.free[i] != s.free[j]
  {
    BufferOnce(s);
    hide Tickets;
    hide InRing;
    var place :| Places(s, place);
    if b in s.free {
      var i :| 0 <= i < |s.free| && s.free[i] == b;
      assert place[b] == InPool;
    }
  }

  // A run that ends in a stale drop

  /** The state after `j` clients have each got a buffer and queued it for slave 1. */
  function Queued(j: nat): Sys
    requires j < EC_MBXPOOLSIZE
  {
    Sys(Queue(seq(EC_MBXPOOLSIZE, k => if k < j then k else -1), seq(EC_MBXPOOLSIZE, k => if k < j then 1 else 0),
              seq(EC_MBXPOOLSIZE, k => if k < j then Some(k) else None),
              seq(EC_MBXPOOLSIZE, _ => false), seq(EC_MBXPOOLSIZE, k => if k < j then REQ else NONE), j, 0, j),
        seq(EC_MBXPOOLSIZE - j, b => b + j), {}, map k: int | 0 <= k < j :: Request(1, k, 0), Idle, [], 0)
  }

  lemma {:induction false} QueueOneMore(j: nat) returns (s: Sys)
    requires j + 1 < EC_MBXPOOLSIZE
    ensures Turn(Queued(j), GetMbx) && InBounds(Queued(j), GetMbx) && s == Step(Queued(j), GetMbx)
    ensures Turn(s, AddRequest(1, j)) && InBounds(s, AddRequest(1, j))
    ensures Step(s, AddRequest(1, j)) == Queued(j + 1)
  {
    var s0 := Queued(j);
    s := Step(s0, GetMbx);
    assert s.held == {j};
    assert s.q.mbxticket[j] == -1;
    var s', t := Step(s, AddRequest(1, j)), Queued(j + 1);
    assert s'.free == t.free;
    assert s'.held == t.held;
    assert s'.req == t.req;
    assert s'.q.mbxticket == t.q.mbxticket;
    assert s'.q.mbxslave == t.q.mbxslave;
    assert s'.q.mbx == t.q.mbx;
    assert s'.q.mbxremove == t.q.mbxremove;
    assert s'.q.mbxstate == t.q.mbxstate;
  }

  /** A run can go on with any turn that stays in bounds. */
  lemma {:induction false} Extend(
    st: seq<Sys>, acts: seq<Action>, a: Action) returns (st': seq<Sys>, acts': seq<Action>)
    requires IsRun(st, acts) && Turn(st[|acts|], a) && InBounds(st[|acts|], a)
    ensures acts' == acts + [a] && st' == st + [Step(st[|acts|], a)]
    ensures IsRun(st', acts')
  {
    hide Step;
    hide Turn;
    hide Init;
    acts' := acts + [a];
    st' := st + [Step(st[|acts|], a)];
  }

  lemma {:induction false} RunToQueued(j: nat) returns (st: seq<Sys>, acts: seq<Action>)
    requires j < EC_MBXPOOLSIZE
    ensures IsRun(st, acts) && st[|acts|] == Queued(j)
  {
    if j == 0 {
      st, acts := [Init()], [];
      var a, b := Init(), Queued(0);
      assert a.free == b.free && a.req == b.req;
      assert a.q.mbxticket == b.q.mbxticket && a.q.mbxslave == b.q.mbxslave && a.q.mbx == b.q.mbx;
      assert a.q.mbxremove == b.q.mbxremove && a.q.mbxstate == b.q.mbxstate;
    } else {
      st, acts := RunToQueued(j - 1);
      var s := QueueOneMore(j - 1);
      hide Queued;
      hide Step;
      st, acts := Extend(st, acts, GetMbx);
      st, acts := Extend(st, acts, AddRequest(1, j - 1));
    }
  }

  /** The handler has failed to send the oldest of 31 requests and has rotated it. */
  lemma {:induction false} RotateFirst(s: Sys) returns (s0: Sys, s1: Sys, s2: Sys, s3: Sys)
    requires s == Queued(EC_MBXPOOLSIZE - 1)
    ensures Turn(s, BeginPass) && InBounds(s, BeginPass) && s0 == Step(s, BeginPass)
    ensures Turn(s0, Load) && InBounds(s0, Load) && s1 == Step(s0, Load)
    ensures Turn(s1, Send(false)) && InBounds(s1, Send(false)) && s2 == Step(s1, Send(false))
    ensures Turn(s2, RotateTail) && InBounds(s2, RotateTail) && s3 == Step(s2, RotateTail)
    ensures Shape(s3.q) && s3.pc == ToCheck(0) && s3.free == [EC_MBXPOOLSIZE - 1]
    ensures s3.q.listcount == EC_MBXPOOLSIZE - 1 && s3.q.listtail == 1 && s3.q.listhead == 0
    ensures FreeTicket(s3.q.mbxticket) == EC_MBXPOOLSIZE - 1
  {
    s0 := Step(s, BeginPass);
    s1 := Step(s0, Load);
    s2 := Step(s1, Send(false));
    assert s2.q.mbxticket[0] == 0;
    s3 := Step(s2, RotateTail);
    assert s3.q.mbxticket[EC_MBXPOOLSIZE - 1] == -1;
  }

  /** Before the handler looks at mbxremove, a client fills the old tail slot and gives up. */
  lemma {:induction false} FillAndExpire(s: Sys) returns (s1: Sys, s2: Sys, s3: Sys, s4: Sys)
    requires Shape(s.q) && s.pc == ToCheck(0) && s.free == [EC_MBXPOOLSIZE - 1]
    requires s.q.listcount == EC_MBXPOOLSIZE - 1 && s.q.listtail == 1 && s.q.listhead == 0
    requires FreeTicket(s.q.mbxticket) == EC_MBXPOOLSIZE - 1
    ensures Turn(s, GetMbx) && InBounds(s, GetMbx) && s1 == Step(s, GetMbx)
    ensures var a := AddRequest(2, EC_MBXPOOLSIZE - 1); Turn(s1, a) && InBounds(s1, a) && s2 == Step(s1, a)
    ensures var a := ExpireRequest(EC_MBXPOOLSIZE - 1); Turn(s2, a) && InBounds(s2, a) && s3 == Step(s2, a)
    ensures Turn(s3, Check) && InBounds(s3, Check) && s4 == Step(s3, Check)
    ensures Turn(s4, DropTail) && StaleDrop(s4, DropTail)
  {
    s1 := Step(s, GetMbx);
    s2 := Step(s1, AddRequest(2, EC_MBXPOOLSIZE - 1));
    s3 := Step(s2, ExpireRequest(EC_MBXPOOLSIZE - 1));
    s4 := Step(s3, Check);
  }

  /** The invariant does not hold over all interleavings: this run reaches a stale drop. */
  lemma {:induction false} StaleDropHappens() returns (st: seq<Sys>, acts: seq<Action>)
    ensures IsRun(st, acts) && Turn(st[|acts|], DropTail) && StaleDrop(st[|acts|], DropTail)
  {
    st, acts := RunToQueued(EC_MBXPOOLSIZE - 1);
    var s0, s1, s2, s3 := RotateFirst(st[|acts|]);
    var s4, s5, s6, s7 := FillAndExpire(s3);
    hide Queued;
    hide Step;
    hide Turn;
    hide StaleDrop;
    st, acts := Extend(st, acts, BeginPass);
    st, acts := Extend(st, acts, Load);
    st, acts := Extend(st, acts, Send(false));
    st, acts := Extend(st, acts, RotateTail);
    st, acts := Extend(st, acts, GetMbx);
    st, acts := Extend(st, acts, AddRequest(2, EC_MBXPOOLSIZE - 1));
    st, acts := Extend(st, acts, ExpireRequest(EC_MBXPOOLSIZE - 1));
    st, acts := Extend(st, acts, Check);
  }
}
