/** Every operation on the mailbox queue keeps its tickets right. */
module MailboxTickets {
  import opened MailboxPool
  import opened MailboxQueue
  import opened MailboxSystem

  // Pigeonhole

  lemma {:induction false} DistinctBounded(s: seq<nat>, m: nat)
    requires forall j, k :: 0 <= j < k < |s| ==> s[j] != s[k]
    requires forall k :: 0 <= k < |s| ==> s[k] < m
    ensures |s| <= m
  {
    if j: nat :| j < |s| && s[j] == m - 1 {
      var rest := s[..j] + s[j + 1..];
      assert forall i :: 0 <= i < |rest| ==> rest[i] == s[if i < j then i else i + 1];
      DistinctBounded(rest, m - 1);
    } else if s != [] {
      assert 0 <= s[0] < m;
      DistinctBounded(s, m - 1);
    }
  }

  /** A ticket is free whenever the ring is not full. */
  lemma {:induction false} FreeTicketExists(q: Queue, req: map<int, Request>, log: seq<Sent>)
    requires Shape(q) && Tickets(q, req, log)
    requires q.listcount < EC_MBXPOOLSIZE
    ensures FreeTicket(q.mbxticket) < EC_MBXPOOLSIZE
  {
    hide Denotes;
    hide HasTicket;
    if FreeTicket(q.mbxticket) == EC_MBXPOOLSIZE {
      var places := seq(EC_MBXPOOLSIZE, k requires 0 <= k < EC_MBXPOOLSIZE && InUse(q, k) =>
        Behind(q.listtail, q.mbxticket[k]));
      forall k | 0 <= k < EC_MBXPOOLSIZE
        ensures k in req && places[k] < q.listcount && At(q.listtail, places[k]) == q.mbxticket[k]
      {
      }
      DistinctBounded(places, q.listcount);
    }
  }

  lemma {:induction false} HasTicketAt(q: Queue, req: map<int, Request>, k: int)
    requires k in req && 0 <= k < |q.mbxticket|
    ensures HasTicket(q, req, q.mbxticket[k])
  {
  }

  // Adding a request

  lemma {:induction false} AddOwned(q: Queue, req: map<int, Request>, log: seq<Sent>, slave: nat, mbx: nat)
    requires Shape(q) && Owned(q, req, log)
    requires q.listcount < EC_MBXPOOLSIZE && FreeTicket(q.mbxticket) < EC_MBXPOOLSIZE
    ensures var (q', ticket) := Add(q, slave, mbx);
            Owned(q', req[ticket := Request(slave, mbx, |log|)], log)
  {
    hide WasSent;
  }

  lemma {:induction false} AddCovered(q: Queue, req: map<int, Request>, slave: nat, mbx: nat, r: Request)
    requires Shape(q) && Covered(q, req) && Unowned(q, req)
    requires q.listcount < EC_MBXPOOLSIZE && FreeTicket(q.mbxticket) < EC_MBXPOOLSIZE
    ensures var (q', ticket) := Add(q, slave, mbx);
            Covered(q', req[ticket := r])
  {
    var (q', ticket) := Add(q, slave, mbx);
    var req' := req[ticket := r];
    forall loc | InRing(q', loc) && !q'.mbxremove[loc] ensures HasTicket(q', req', loc) {
      if loc == q.listhead {
        HasTicketAt(q', req', ticket);
      } else {
        assert InRing(q, loc) && HasTicket(q, req, loc);
        var k :| k in req && 0 <= k < |q.mbxticket| && q.mbxticket[k] == loc;
        HasTicketAt(q', req', k);
      }
    }
  }

  /** The new request gets a ticket of its own. */
  lemma {:induction false} AddKeepsTickets(q: Queue, req: map<int, Request>, log: seq<Sent>, slave: nat, mbx: nat)
    requires Shape(q) && Tickets(q, req, log)
    requires q.listcount < EC_MBXPOOLSIZE && FreeTicket(q.mbxticket) < EC_MBXPOOLSIZE
    ensures var (q', ticket) := Add(q, slave, mbx);
            && 0 <= ticket < EC_MBXPOOLSIZE && ticket !in req
            && Tickets(q', req[ticket := Request(slave, mbx, |log|)], log)
  {
    AddOwned(q, req, log, slave, mbx);
    AddCovered(q, req, slave, mbx, Request(slave, mbx, |log|));
    hide Denotes;
    hide HasTicket;
    hide Covered;
    var (q', ticket) := Add(q, slave, mbx);
    assert ticket !in req;
  }

  // Giving a ticket back

  lemma {:induction false} ReleaseCovered(q: Queue, req: map<int, Request>, k: int)
    requires Shape(q) && Covered(q, req) && k in req && InUse(q, k)
    ensures Covered(Release(q, k), req - {k})
  {
    var q' := Release(q, k);
    forall loc | InRing(q', loc) && !q'.mbxremove[loc] ensures HasTicket(q', req - {k}, loc) {
      assert InRing(q, loc) && HasTicket(q, req, loc);
      var j :| j in req && 0 <= j < |q.mbxticket| && q.mbxticket[j] == loc;
      assert j != k;
      HasTicketAt(q', req - {k}, j);
    }
  }

  lemma {:induction false} ReleaseOwned(q: Queue, req: map<int, Request>, log: seq<Sent>, k: int)
    requires Shape(q) && Owned(q, req, log) && OneToOne(q, req) && k in req && InUse(q, k)
    ensures Owned(Release(q, k), req - {k}, log)
  {
    hide WasSent;
    var q', req' := Release(q, k), req - {k};
    forall j | j in req'
      ensures InUse(q', j) && InRing(q', q'.mbxticket[j]) && !q'.mbxremove[q'.mbxticket[j]]
      ensures Denotes(q', q'.mbxticket[j], req'[j], log)
    {
      assert InUse(q, j) && q.mbxticket[j] != q.mbxticket[k];
    }
  }

  lemma {:induction false} ReleaseKeepsTickets(q: Queue, req: map<int, Request>, log: seq<Sent>, k: int)
    requires Shape(q) && Tickets(q, req, log) && k in req && InUse(q, k)
    ensures Tickets(Release(q, k), req - {k}, log)
  {
    ReleaseOwned(q, req, log, k);
    ReleaseCovered(q, req, k);
    assert InRing(q, q.mbxticket[k]);
    hide Denotes;
    hide HasTicket;
    hide Covered;
  }

  // Rotating

  /** A tail entry that is not removed has its ticket; the others have not that ticket. */
  lemma {:induction false} TailTicket(q: Queue, req: map<int, Request>, log: seq<Sent>) returns (ticket: nat)
    requires Shape(q) && Tickets(q, req, log) && q.listcount > 0
    ensures ticket == TicketOf(q.mbxticket, q.listtail)
    ensures ticket < EC_MBXPOOLSIZE <==> !q.mbxremove[q.listtail]
    ensures ticket < EC_MBXPOOLSIZE ==> ticket in req && q.mbxticket[ticket] == q.listtail
  {
    ticket := TicketOf(q.mbxticket, q.listtail);
    assert InRing(q, q.listtail);
    if !q.mbxremove[q.listtail] {
      assert HasTicket(q, req, q.listtail);
    }
  }

  lemma {:induction false} RotateOwned(q: Queue, req: map<int, Request>, log: seq<Sent>, ticket: int)
    requires Shape(q) && Owned(q, req, log) && OneToOne(q, req)
    requires 0 < q.listcount < EC_MBXPOOLSIZE
    requires ticket == TicketOf(q.mbxticket, q.listtail) < EC_MBXPOOLSIZE && ticket in req
    ensures Owned(Rotate(q, q.listtail).0, req, log)
  {
    hide WasSent;
    var q' := Rotate(q, q.listtail).0;
    forall j | j in req
      ensures InUse(q', j) && InRing(q', q'.mbxticket[j]) && !q'.mbxremove[q'.mbxticket[j]]
      ensures Denotes(q', q'.mbxticket[j], req[j], log)
    {
      assert InUse(q, j);
    }
  }

  lemma {:induction false} RotateCovered(q: Queue, req: map<int, Request>, ticket: int)
    requires Shape(q) && Covered(q, req) && 0 < q.listcount < EC_MBXPOOLSIZE
    requires ticket == TicketOf(q.mbxticket, q.listtail) < EC_MBXPOOLSIZE && ticket in req
    ensures Covered(Rotate(q, q.listtail).0, req)
  {
    var q' := Rotate(q, q.listtail).0;
    forall loc | InRing(q', loc) && !q'.mbxremove[loc] ensures HasTicket(q', req, loc) {
      if loc == q.listhead {
        HasTicketAt(q', req, ticket);
      } else {
        assert InRing(q, loc) && HasTicket(q, req, loc);
        var k :| k in req && 0 <= k < |q.mbxticket| && q.mbxticket[k] == loc;
        HasTicketAt(q', req, k);
      }
    }
  }

  lemma {:induction false} RotateKeepsTickets(q: Queue, req: map<int, Request>, log: seq<Sent>)
    requires Shape(q) && Tickets(q, req, log) && q.listcount > 0
    ensures Tickets(Rotate(q, q.listtail).0, req, log)
    ensures var q' := Rotate(q, q.listtail).0;
            || q' == q
            || (q.listcount < EC_MBXPOOLSIZE && q'.listtail == Next(q.listtail) && q'.listcount == q.listcount)
  {
    var ticket := TailTicket(q, req, log);
    RotateOrNot(q);
    if q.listcount < EC_MBXPOOLSIZE && ticket < EC_MBXPOOLSIZE {
      RotateOwned(q, req, log, ticket);
      RotateCovered(q, req, ticket);
      InRingWithTicket(q, req, log);
      hide Denotes;
      hide HasTicket;
      hide Covered;
      hide Owned;
      hide Rotate;
      RotateRest(q, req, log, ticket);
    }
  }

  lemma {:induction false} RotateOrNot(q: Queue)
    requires Shape(q) && q.listcount > 0
    ensures var q' := Rotate(q, q.listtail).0;
            if q.listcount < EC_MBXPOOLSIZE && TicketOf(q.mbxticket, q.listtail) < EC_MBXPOOLSIZE then
              q'.listtail == Next(q.listtail) && q'.listcount == q.listcount
            else q' == q
  {
    hide TicketOf;
  }

  lemma {:induction false} InRingWithTicket(q: Queue, req: map<int, Request>, log: seq<Sent>)
    requires Shape(q) && Owned(q, req, log)
    ensures forall k :: k in req ==> InUse(q, k) && InRing(q, q.mbxticket[k])
  {
    hide Denotes;
  }

  lemma {:induction false} RotateRest(q: Queue, req: map<int, Request>, log: seq<Sent>, ticket: int)
    requires Shape(q) && Unowned(q, req) && OneToOne(q, req) && OutsideClean(q)
    requires 0 < q.listcount < EC_MBXPOOLSIZE && !q.mbxremove[q.listtail]
    requires ticket == TicketOf(q.mbxticket, q.listtail) < EC_MBXPOOLSIZE && ticket in req
    requires forall k :: k in req ==> InUse(q, k) && InRing(q, q.mbxticket[k])
    ensures var q' := Rotate(q, q.listtail).0;
            Unowned(q', req) && OneToOne(q', req) && OutsideClean(q')
  {
  }

  // Dropping

  lemma {:induction false} DropKeepsTickets(q: Queue, req: map<int, Request>, log: seq<Sent>)
    requires Shape(q) && Tickets(q, req, log) && q.listcount > 0 && q.mbxremove[q.listtail]
    ensures Tickets(Drop(q, q.listtail).0, req, log)
  {
    var q' := Drop(q, q.listtail).0;
    hide WasSent;
    forall j | j in req
      ensures InUse(q', j) && InRing(q', q'.mbxticket[j]) && !q'.mbxremove[q'.mbxticket[j]]
      ensures Denotes(q', q'.mbxticket[j], req[j], log)
    {
      assert InUse(q, j);
    }
    DropCovered(q, req);
    hide HasTicket;
    hide Covered;
    hide Owned;
  }

  lemma {:induction false} DropCovered(q: Queue, req: map<int, Request>)
    requires Shape(q) && Covered(q, req) && q.listcount > 0 && q.mbxremove[q.listtail]
    ensures Covered(Drop(q, q.listtail).0, req)
  {
    var q' := Drop(q, q.listtail).0;
    forall loc | InRing(q', loc) && !q'.mbxremove[loc] ensures HasTicket(q', req, loc) {
      assert InRing(q, loc) && HasTicket(q, req, loc);
      var k :| k in req && 0 <= k < |q.mbxticket| && q.mbxticket[k] == loc;
      HasTicketAt(q', req, k);
    }
  }

  // Sending

  /** Only the fields of one slot and the log change, and the slot still denotes its request. */
  lemma {:induction false} SlotKeepsTickets(
    q: Queue, q': Queue, req: map<int, Request>, log: seq<Sent>, log': seq<Sent>, loc: nat)
    requires Shape(q) && Tickets(q, req, log) && loc < EC_MBXPOOLSIZE && log <= log'
    requires Shape(q') && q' == q.(mbxstate := q'.mbxstate, mbx := q'.mbx)
    requires forall i :: 0 <= i < EC_MBXPOOLSIZE && i != loc ==>
      q'.mbxstate[i] == q.mbxstate[i] && q'.mbx[i] == q.mbx[i]
    requires forall k :: k in req && q.mbxticket[k] == loc ==> Denotes(q', loc, req[k], log')
    ensures Tickets(q', req, log')
  {
    forall k | k in req ensures Denotes(q', q.mbxticket[k], req[k], log') {
      assert Denotes(q, q.mbxticket[k], req[k], log);
    }
    SlotCovered(q, q', req);
    hide Denotes;
    hide HasTicket;
    hide Covered;
  }

  lemma {:induction false} SlotCovered(q: Queue, q': Queue, req: map<int, Request>)
    requires Shape(q) && Covered(q, req) && Shape(q') && q' == q.(mbxstate := q'.mbxstate, mbx := q'.mbx)
    ensures Covered(q', req)
  {
    forall loc | InRing(q', loc) && !q'.mbxremove[loc] ensures HasTicket(q', req, loc) {
      assert InRing(q, loc) && HasTicket(q, req, loc);
      var k :| k in req && 0 <= k < |q.mbxticket| && q.mbxticket[k] == loc;
      HasTicketAt(q', req, k);
    }
  }
}
