/** Safety of the mailbox queue over every interleaving of clients and handler. */
module MailboxSafety {
  import opened EcTypes
  import opened MailboxPool
  import opened MailboxQueue
  import opened MailboxSystem
  import opened MailboxTickets

  // The handler

  /** What the handler may rely on wherever it stands. */
  ghost predicate HandlerOk(q: Queue, pc: Handler)
    requires Shape(q)
  {
    match pc
    case Idle => true
    case Loaded(loc, slave, mbx) =>
      && q.listcount > 0 && loc == q.listtail && q.mbxstate[loc] in {REQ, FAIL}
      && q.mbxslave[loc] == slave && q.mbx[loc] == Some(mbx)
    case Written(loc, mbx) =>
      q.listcount > 0 && loc == q.listtail && q.mbxstate[loc] == DONE && q.mbx[loc] == Some(mbx)
    case Returned(loc) => q.listcount > 0 && loc == q.listtail && q.mbxstate[loc] == DONE
    case ToRotate(loc) => q.listcount > 0 && loc == q.listtail
    case ToCheck(loc) =>
      loc < EC_MBXPOOLSIZE && ((q.listcount > 0 && loc == q.listtail) || Next(loc) == q.listtail)
    case ToDrop(loc) =>
      InRing(q, loc) && q.mbxremove[loc] && (loc == q.listtail || Next(loc) == q.listtail)
    case HandBack(_) => true
  }

  /** An entry has its buffer until it is done, and loses it while it is being marked done. */
  ghost predicate Filled(q: Queue, pc: Handler)
    requires Shape(q)
  {
    forall loc :: InRing(q, loc) ==>
      match q.mbxstate[loc]
      case NONE => false
      case DONE => q.mbx[loc].Some? ==> (pc.Written? || pc.Returned?) && pc.loc == loc
      case _ => q.mbx[loc].Some?
  }

  // Buffers

  datatype Place = InPool | AtClient | InSlot(loc: nat) | AtHandler

  /** The ring entry at `loc` owns the buffer it points to. */
  predicate Owns(q: Queue, pc: Handler, loc: int)
    requires Shape(q)
  {
    0 <= loc < EC_MBXPOOLSIZE && InRing(q, loc) && q.mbx[loc].Some? && !(pc.Returned? && pc.loc == loc)
  }

  ghost predicate PoolPlaces(free: seq<nat>, place: seq<Place>) {
    && (forall i :: 0 <= i < |free| ==> free[i] < |place| && place[free[i]] == InPool)
    && (forall i, j :: 0 <= i < j < |free| ==> free[i] != free[j])
    && (forall b :: 0 <= b < |place| && place[b] == InPool ==> b in free)
  }

  ghost predicate ClientPlaces(held: set<nat>, place: seq<Place>) {
    forall b: nat :: b in held <==> b < |place| && place[b] == AtClient
  }

  ghost predicate SlotPlaces(q: Queue, pc: Handler, place: seq<Place>)
    requires Shape(q)
  {
    && (forall loc :: Owns(q, pc, loc) ==> q.mbx[loc].value < |place| && place[q.mbx[loc].value] == InSlot(loc))
    && (forall b :: 0 <= b < |place| && place[b].InSlot? ==>
          Owns(q, pc, place[b].loc) && q.mbx[place[b].loc] == Some(b))
  }

  ghost predicate HandlerPlaces(pc: Handler, place: seq<Place>) {
    && (pc.HandBack? && pc.buffer.Some? ==> pc.buffer.value < |place| && place[pc.buffer.value] == AtHandler)
    && (forall b :: 0 <= b < |place| && place[b] == AtHandler ==> pc == HandBack(Some(b)))
  }

  /** `place` tells for each of the pool's buffers where it is: nowhere else. */
  ghost predicate Places(s: Sys, place: seq<Place>)
    requires Shape(s.q)
  {
    && |place| == EC_MBXPOOLSIZE
    && PoolPlaces(s.free, place) && ClientPlaces(s.held, place)
    && SlotPlaces(s.q, s.pc, place) && HandlerPlaces(s.pc, place)
  }

  /** The pass goes by the count that the ring had when it began. There are at least as many
      entries as visits are left, besides the one that is being visited. */
  predicate PassOk(s: Sys) {
    s.left + (if s.pc.Idle? || s.pc.HandBack? then 0 else 1) <= s.q.listcount
  }

  ghost predicate Inv(s: Sys) {
    && Shape(s.q) && PassOk(s)
    && Tickets(s.q, s.req, s.log) && HandlerOk(s.q, s.pc) && Filled(s.q, s.pc)
    && exists place :: Places(s, place)
  }

  /** The handler drops a ring entry that is not at the tail. */
  predicate StaleDrop(s: Sys, a: Action) {
    a.DropTail? && s.pc.ToDrop? && s.pc.loc != s.q.listtail
  }

  /** No step of anybody leaves the arrays, and an add finds a free ticket. */
  lemma {:induction false} TurnsStayInBounds(s: Sys, a: Action)
    requires Inv(s) && Turn(s, a)
    ensures InBounds(s, a)
  {
    hide Places;
    hide Denotes;
    hide HasTicket;
    match a
    case AddRequest(_, _) =>
      if s.q.listcount < EC_MBXPOOLSIZE {
        FreeTicketExists(s.q, s.req, s.log);
      }
    case Load => assert InRing(s.q, s.q.listtail);
    case _ =>
  }

  lemma {:induction false} TicketsKept(s: Sys, a: Action)
    requires Shape(s.q) && Tickets(s.q, s.req, s.log) && HandlerOk(s.q, s.pc)
    requires Turn(s, a) && InBounds(s, a) && !StaleDrop(s, a)
    ensures Tickets(Step(s, a).q, Step(s, a).req, Step(s, a).log)
  {
    hide Tickets;
    match a
    case GetMbx =>
    case DropMbx(_) =>
    case AddRequest(slave, b) =>
      if s.q.listcount < EC_MBXPOOLSIZE {
        AddKeepsTickets(s.q, s.req, s.log, slave, b);
      }
    case DoneRequest(k) => ReleaseKeepsTickets(s.q, s.req, s.log, k);
    case ExpireRequest(k) => ReleaseKeepsTickets(s.q, s.req, s.log, k);
    case BeginPass =>
    case Load =>
    case Send(ok) => SendKeepsTickets(s, ok);
    case Skip =>
    case ReturnBuffer =>
    case ClearSlot => ClearKeepsTickets(s);
    case RotateTail => RotateKeepsTickets(s.q, s.req, s.log);
    case Check =>
    case DropTail => DropKeepsTickets(s.q, s.req, s.log);
    case ReturnDropped =>
  }

  lemma {:induction false} SendKeepsTickets(s: Sys, ok: bool)
    requires Shape(s.q) && Tickets(s.q, s.req, s.log) && HandlerOk(s.q, s.pc)
    requires s.pc.Loaded?
    ensures Tickets(Step(s, Send(ok)).q, s.req, Step(s, Send(ok)).log)
  {
    var s' := Step(s, Send(ok));
    forall k | k in s.req && s.q.mbxticket[k] == s.pc.loc
      ensures Denotes(s'.q, s.pc.loc, s.req[k], s'.log)
    {
      assert Denotes(s.q, s.q.mbxticket[k], s.req[k], s.log);
      if ok {
        assert s'.log[|s.log|] == Sent(s.req[k].slave, s.req[k].mbx);
      }
    }
    SlotKeepsTickets(s.q, s'.q, s.req, s.log, s'.log, s.pc.loc);
  }

  lemma {:induction false} ClearKeepsTickets(s: Sys)
    requires Shape(s.q) && Tickets(s.q, s.req, s.log) && HandlerOk(s.q, s.pc)
    requires s.pc.Returned?
    ensures Tickets(Step(s, ClearSlot).q, s.req, s.log)
  {
    var q' := Step(s, ClearSlot).q;
    forall k | k in s.req && s.q.mbxticket[k] == s.pc.loc ensures Denotes(q', s.pc.loc, s.req[k], s.log) {
      assert Denotes(s.q, s.q.mbxticket[k], s.req[k], s.log);
    }
    SlotKeepsTickets(s.q, q', s.req, s.log, s.log, s.pc.loc);
  }

  lemma {:induction false} PassKept(s: Sys, a: Action)
    requires Shape(s.q) && PassOk(s) && HandlerOk(s.q, s.pc) && Turn(s, a) && InBounds(s, a)
    ensures PassOk(Step(s, a))
  {
    hide HandlerOk;
    match a
    case RotateTail =>
      RotateKeepsCount(s.q, s.pc.loc);
    case _ =>
  }

  lemma {:induction false} RotateKeepsCount(q: Queue, loc: nat)
    requires Shape(q)
    ensures Rotate(q, loc).0.listcount == q.listcount
  {
  }

  lemma {:induction false} HandlerKept(s: Sys, a: Action)
    requires Inv(s) && Turn(s, a) && InBounds(s, a) && !StaleDrop(s, a)
    ensures HandlerOk(Step(s, a).q, Step(s, a).pc)
  {
    hide Places;
    hide Owned;
    hide Unowned;
    hide OneToOne;
    hide Covered;
    assert InRing(s.q, s.q.listtail) || s.q.listcount == 0;
    match a
    case RotateTail => RotateKeepsTickets(s.q, s.req, s.log);
    case DoneRequest(k) => OwnedInRing(s, k);
    case ExpireRequest(k) => OwnedInRing(s, k);
    case _ =>
  }

  lemma {:induction false} OwnedInRing(s: Sys, k: int)
    requires Shape(s.q) && Tickets(s.q, s.req, s.log) && k in s.req
    ensures InUse(s.q, k) && InRing(s.q, s.q.mbxticket[k])
  {
  }

  lemma {:induction false} FilledKept(s: Sys, a: Action)
    requires Inv(s) && Turn(s, a) && InBounds(s, a) && !StaleDrop(s, a)
    ensures Filled(Step(s, a).q, Step(s, a).pc)
  {
    hide Places;
    hide Tickets;
    match a
    case RotateTail => RotateKeepsFilled(s);
    case DropTail => DropKeepsFilled(s);
    case _ =>
  }

  lemma {:induction false} RotateKeepsFilled(s: Sys)
    requires Inv(s) && s.pc.ToRotate?
    ensures Filled(Step(s, RotateTail).q, ToCheck(s.pc.loc))
  {
    hide Places;
    RotateMoves(s);
    hide Tickets;
    assert s.q.listcount > 0 ==> InRing(s.q, s.q.listtail);
  }

  lemma {:induction false} DropKeepsFilled(s: Sys)
    requires Inv(s) && s.pc.ToDrop? && s.pc.loc == s.q.listtail
    ensures s.q.listcount > 0 && Filled(Step(s, DropTail).q, Step(s, DropTail).pc)
  {
    hide Places;
    hide Tickets;
  }

  // Each step moves at most one buffer.

  lemma {:induction false} GetMovesBuffer(s: Sys, place: seq<Place>) returns (place': seq<Place>)
    requires Shape(s.q) && Places(s, place) && |s.free| > 0
    ensures Places(Step(s, GetMbx), place')
  {
    hide InRing;
    place' := place[s.free[0] := AtClient];
    var free' := s.free[1..];
    forall b | 0 <= b < |place'| && place'[b] == InPool ensures b in free' {
      var i :| 0 <= i < |s.free| && s.free[i] == b;
      assert free'[i - 1] == b;
    }
  }

  lemma {:induction false} DropMovesBuffer(s: Sys, b: nat, place: seq<Place>) returns (place': seq<Place>)
    requires Shape(s.q) && Places(s, place) && b in s.held
    ensures Places(Step(s, DropMbx(b)), place')
  {
    hide InRing;
    place' := place[b := InPool];
    PoolGrows(s.free, b, place);
  }

  lemma {:induction false} PoolGrows(free: seq<nat>, b: nat, place: seq<Place>)
    requires PoolPlaces(free, place) && b < |place| && place[b] != InPool
    ensures PoolPlaces(free + [b], place[b := InPool])
  {
    var free' := free + [b];
    assert free'[|free|] == b;
    forall c | 0 <= c < |place| && place[c] == InPool ensures c in free' {
      var i :| 0 <= i < |free| && free[i] == c;
      assert free'[i] == c;
    }
  }

  lemma {:induction false} AddMovesBuffer(s: Sys, slave: nat, b: nat, place: seq<Place>) returns (place': seq<Place>)
    requires Shape(s.q) && HandlerOk(s.q, s.pc) && Places(s, place) && b in s.held
    requires InBounds(s, AddRequest(slave, b)) && s.q.listcount < EC_MBXPOOLSIZE
    ensures Places(Step(s, AddRequest(slave, b)), place')
  {
    place' := place[b := InSlot(s.q.listhead)];
    var q := Step(s, AddRequest(slave, b)).q;
    forall loc | Owns(q, s.pc, loc) && loc != s.q.listhead ensures Owns(s.q, s.pc, loc) {}
  }

  lemma {:induction false} ReturnMovesBuffer(s: Sys, place: seq<Place>) returns (place': seq<Place>)
    requires Shape(s.q) && HandlerOk(s.q, s.pc) && Places(s, place) && s.pc.Written?
    ensures Places(Step(s, ReturnBuffer), place')
  {
    assert Owns(s.q, s.pc, s.pc.loc);
    place' := place[s.pc.mbx := InPool];
    PoolGrows(s.free, s.pc.mbx, place);
    hide PoolPlaces;
    hide InRing;
  }

  lemma {:induction false} RotateMovesBuffer(s: Sys, place: seq<Place>) returns (place': seq<Place>)
    requires Shape(s.q) && Tickets(s.q, s.req, s.log) && HandlerOk(s.q, s.pc) && Places(s, place)
    requires s.pc.ToRotate?
    ensures Places(Step(s, RotateTail), place')
  {
    hide Tickets;
    RotateMoves(s);
    var (head, tail) := (s.q.listhead, s.q.listtail);
    place' := place;
    if Rotate(s.q, tail).0 != s.q {
      assert s.q.mbx[tail].Some? ==> Owns(s.q, s.pc, tail);
      if s.q.mbx[tail].Some? {
        place' := place[s.q.mbx[tail].value := InSlot(head)];
      }
      RotateSlots(s.q, s.pc, place, place');
      hide SlotPlaces;
      hide Rotate;
    } else {
      SamePlaces(s, place);
      hide SlotPlaces;
      hide Rotate;
    }
  }

  /** A rotation either changes nothing or moves the tail entry of a ring that is not full. */
  lemma {:induction false} RotateMoves(s: Sys)
    requires Shape(s.q) && Tickets(s.q, s.req, s.log) && HandlerOk(s.q, s.pc) && s.pc.ToRotate?
    ensures var q' := Rotate(s.q, s.q.listtail).0;
            || q' == s.q
            || (0 < s.q.listcount < EC_MBXPOOLSIZE && TicketOf(s.q.mbxticket, s.q.listtail) < EC_MBXPOOLSIZE)
  {
    hide Tickets;
  }

  lemma {:induction false} SamePlaces(s: Sys, place: seq<Place>)
    requires Shape(s.q) && SlotPlaces(s.q, s.pc, place) && s.pc.ToRotate?
    ensures SlotPlaces(s.q, ToCheck(s.pc.loc), place)
  {
    assert forall loc :: Owns(s.q, ToCheck(s.pc.loc), loc) <==> Owns(s.q, s.pc, loc);
  }

  lemma {:induction false} RotateSlots(q: Queue, pc: Handler, place: seq<Place>, place': seq<Place>)
    requires Shape(q) && SlotPlaces(q, pc, place) && pc.ToRotate? && pc.loc == q.listtail
    requires 0 < q.listcount < EC_MBXPOOLSIZE && TicketOf(q.mbxticket, pc.loc) < EC_MBXPOOLSIZE
    requires q.mbx[q.listtail].Some? ==> q.mbx[q.listtail].value < |place|
    requires place' == if q.mbx[q.listtail].Some? then place[q.mbx[q.listtail].value := InSlot(q.listhead)] else place
    ensures SlotPlaces(Rotate(q, pc.loc).0, ToCheck(pc.loc), place')
  {
    var q' := Rotate(q, pc.loc).0;
    forall loc | Owns(q', ToCheck(pc.loc), loc) && loc != q.listhead ensures Owns(q, pc, loc) && loc != q.listtail {}
    assert q.mbx[q.listtail].Some? ==> Owns(q, pc, q.listtail);
    assert !InRing(q, q.listhead);
  }

  lemma {:induction false} DropTailMovesBuffer(s: Sys, place: seq<Place>) returns (place': seq<Place>)
    requires Shape(s.q) && HandlerOk(s.q, s.pc) && Places(s, place)
    requires s.pc.ToDrop? && s.pc.loc == s.q.listtail
    ensures s.q.listcount > 0 && Places(Step(s, DropTail), place')
  {
    var tail := s.q.listtail;
    place' := if s.q.mbx[tail].Some? then place[s.q.mbx[tail].value := AtHandler] else place;
    assert s.q.mbx[tail].Some? ==> Owns(s.q, s.pc, tail);
    var s' := Step(s, DropTail);
    forall loc | Owns(s'.q, s'.pc, loc) ensures Owns(s.q, s.pc, loc) && loc != tail {}
  }

  lemma {:induction false} HandBackMovesBuffer(s: Sys, place: seq<Place>) returns (place': seq<Place>)
    requires Shape(s.q) && Places(s, place) && s.pc.HandBack?
    ensures Places(Step(s, ReturnDropped), place')
  {
    place' := place;
    if s.pc.buffer.Some? {
      place' := place[s.pc.buffer.value := InPool];
      PoolGrows(s.free, s.pc.buffer.value, place);
    }
    HandBackSlots(s.q, s.pc, place, place');
    hide PoolPlaces;
    hide SlotPlaces;
  }

  lemma {:induction false} HandBackSlots(q: Queue, pc: Handler, place: seq<Place>, place': seq<Place>)
    requires Shape(q) && SlotPlaces(q, pc, place) && pc.HandBack?
    requires pc.buffer.Some? ==> pc.buffer.value < |place| && place[pc.buffer.value] == AtHandler
    requires place' == if pc.buffer.Some? then place[pc.buffer.value := InPool] else place
    ensures SlotPlaces(q, Idle, place')
  {
    hide InRing;
    assert forall loc :: Owns(q, Idle, loc) <==> Owns(q, pc, loc);
  }

  /** The other steps move none. */
  lemma {:induction false} OthersMoveNothing(s: Sys, a: Action, place: seq<Place>)
    requires Shape(s.q) && HandlerOk(s.q, s.pc) && Places(s, place)
    requires Turn(s, a) && InBounds(s, a)
    requires a.BeginPass? || a.DoneRequest? || a.ExpireRequest? || a.Load? || a.Send? || a.Skip? || a.ClearSlot?
      || a.Check?
    ensures Places(Step(s, a), place)
  {
    hide PoolPlaces;
    hide ClientPlaces;
    var s' := Step(s, a);
    assert forall loc :: Owns(s'.q, s'.pc, loc) <==> Owns(s.q, s.pc, loc);
  }

  lemma {:induction false} PlacesKept(s: Sys, a: Action, place: seq<Place>) returns (place': seq<Place>)
    requires Shape(s.q) && Tickets(s.q, s.req, s.log) && HandlerOk(s.q, s.pc)
    requires Places(s, place)
    requires Turn(s, a) && InBounds(s, a) && !StaleDrop(s, a)
    ensures Places(Step(s, a), place')
  {
    hide Places;
    hide Tickets;
    place' := place;
    match a
    case GetMbx => place' := GetMovesBuffer(s, place);
    case DropMbx(b) => place' := DropMovesBuffer(s, b, place);
    case AddRequest(slave, b) =>
      if s.q.listcount < EC_MBXPOOLSIZE {
        place' := AddMovesBuffer(s, slave, b, place);
      }
    case ReturnBuffer => place' := ReturnMovesBuffer(s, place);
    case RotateTail => place' := RotateMovesBuffer(s, place);
    case DropTail => place' := DropTailMovesBuffer(s, place);
    case ReturnDropped => place' := HandBackMovesBuffer(s, place);
    case _ => OthersMoveNothing(s, a, place);
  }

  /** Every step but a stale drop keeps everything. */
  lemma {:induction false} StepKeepsInv(s: Sys, a: Action)
    requires Inv(s) && Turn(s, a) && !StaleDrop(s, a)
    ensures InBounds(s, a) && Inv(Step(s, a))
  {
    TurnsStayInBounds(s, a);
    TicketsKept(s, a);
    PassKept(s, a);
    HandlerKept(s, a);
    FilledKept(s, a);
    var place :| Places(s, place);
    var place' := PlacesKept(s, a, place);
    hide Places;
    hide Tickets;
    hide HandlerOk;
    hide Filled;
  }
}
