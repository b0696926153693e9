/** Clients and the cyclic handler sharing one mailbox queue: what holds in every state of
    every interleaving of their steps. A mutex-protected operation is one step; what the
    handler does outside the mutex (`MailboxHandler.OutHandler`) is cut into single accesses. */
module MailboxSystem {
  import opened EcTypes
  import opened MailboxPool
  import opened MailboxQueue

  /** What a client asked for when it got its ticket; `since` is the time, as a length of the log. */
  datatype Request = Request(slave: nat, mbx: nat, since: nat)

  /** A mailbox buffer written to a slave. */
  datatype Sent = Sent(slave: nat, mbx: nat)

  /** Where the handler stands in the body of its loop. */
  datatype Handler =
    | Idle
    | Loaded(loc: nat, slave: nat, mbx: nat)  // request read from the ring, not sent yet
    | Written(loc: nat, mbx: nat)             // sent and marked DONE
    | Returned(loc: nat)                      // buffer dropped, pointer still in the ring
    | ToRotate(loc: nat)
    | ToCheck(loc: nat)                       // rotated; about to look at mbxremove
    | ToDrop(loc: nat)                        // has seen mbxremove set
    | HandBack(buffer: Option<nat>)           // entry dropped; its buffer goes back to the pool

  datatype Sys = Sys(
    q: Queue,
    free: seq<nat>,          // buffers in the pool
    held: set<nat>,          // buffers that clients own
    req: map<int, Request>,  // tickets that clients own
    pc: Handler,
    log: seq<Sent>,
    left: nat)               // visits that are left in the pass of the handler

  datatype Action =
    // clients
    | GetMbx
    | DropMbx(b: nat)
    | AddRequest(slave: nat, b: nat)
    | DoneRequest(ticket: int)
    | ExpireRequest(ticket: int)
    // handler
    | BeginPass
    | Load
    | Send(ok: bool)
    | Skip
    | ReturnBuffer
    | ClearSlot
    | RotateTail
    | Check
    | DropTail
    | ReturnDropped

  /** It is the actor's turn: clients use what they own, the handler goes on where it stands. */
  predicate Turn(s: Sys, a: Action) {
    match a
    case GetMbx => |s.free| > 0
    case DropMbx(b) => b in s.held
    case AddRequest(_, b) => b in s.held
    case DoneRequest(k) => k in s.req
    case ExpireRequest(k) => k in s.req
    case BeginPass => s.pc.Idle?
    case Load => s.pc.Idle? && s.left > 0
    case Send(_) => s.pc.Loaded?
    case Skip => s.pc.Loaded?
    case ReturnBuffer => s.pc.Written?
    case ClearSlot => s.pc.Returned?
    case RotateTail => s.pc.ToRotate?
    case Check => s.pc.ToCheck?
    case DropTail => s.pc.ToDrop?
    case ReturnDropped => s.pc.HandBack?
  }

  /** The step stays inside the arrays, visits a ring that is not empty, and sends no null buffer. */
  predicate InBounds(s: Sys, a: Action)
    requires Turn(s, a)
  {
    && Shape(s.q)
    && match a
       case AddRequest(_, _) => s.q.listcount < EC_MBXPOOLSIZE ==> FreeTicket(s.q.mbxticket) < EC_MBXPOOLSIZE
       case DoneRequest(k) => InUse(s.q, k)
       case ExpireRequest(k) => InUse(s.q, k)
       case Load =>
         s.q.listcount > 0 && (s.q.mbxstate[s.q.listtail] in {REQ, FAIL} ==> s.q.mbx[s.q.listtail].Some?)
       case Send(_) => s.pc.loc < EC_MBXPOOLSIZE
       case ClearSlot => s.pc.loc < EC_MBXPOOLSIZE
       case Check => s.pc.loc < EC_MBXPOOLSIZE
       case DropTail => s.pc.loc < EC_MBXPOOLSIZE && s.q.listcount > 0
       case _ => true
  }

  function LoadTail(s: Sys): Handler
    requires Shape(s.q) && (s.q.mbxstate[s.q.listtail] in {REQ, FAIL} ==> s.q.mbx[s.q.listtail].Some?)
  {
    var loc := s.q.listtail;
    match s.q.mbxstate[loc]
    case REQ => Loaded(loc, s.q.mbxslave[loc], s.q.mbx[loc].value)
    case FAIL => Loaded(loc, s.q.mbxslave[loc], s.q.mbx[loc].value)
    case DONE => ToRotate(loc)
    case NONE => ToCheck(loc)
  }

  function Step(s: Sys, a: Action): Sys
    requires Turn(s, a) && InBounds(s, a)
  {
    match a
    case GetMbx => s.(free := s.free[1..], held := s.held + {s.free[0]})
    case DropMbx(b) => s.(free := s.free + [b], held := s.held - {b})
    case AddRequest(slave, b) =>
      var (q, ticket) := Add(s.q, slave, b);
      if ticket >= 0 then s.(q := q, held := s.held - {b}, req := s.req[ticket := Request(slave, b, |s.log|)])
      else s
    case DoneRequest(k) =>
      var (q, ok) := Finish(s.q, k);
      s.(q := q, req := if ok then s.req - {k} else s.req)
    case ExpireRequest(k) =>
      var (q, ok) := Expire(s.q, k);
      s.(q := q, req := if ok then s.req - {k} else s.req)
    case BeginPass => s.(left := s.q.listcount)
    case Load => s.(pc := LoadTail(s), left := s.left - 1)
    case Send(ok) =>
      if ok then
        s.(q := s.q.(mbxstate := s.q.mbxstate[s.pc.loc := DONE]),
           log := s.log + [Sent(s.pc.slave, s.pc.mbx)], pc := Written(s.pc.loc, s.pc.mbx))
      else
        s.(q := s.q.(mbxstate := s.q.mbxstate[s.pc.loc := FAIL]), pc := ToRotate(s.pc.loc))
    case Skip => s.(pc := ToRotate(s.pc.loc))
    case ReturnBuffer => s.(free := s.free + [s.pc.mbx], pc := Returned(s.pc.loc))
    case ClearSlot => s.(q := s.q.(mbx := s.q.mbx[s.pc.loc := None]), pc := ToRotate(s.pc.loc))
    case RotateTail => s.(q := Rotate(s.q, s.pc.loc).0, pc := ToCheck(s.pc.loc))
    case Check => s.(pc := if s.q.mbxremove[s.pc.loc] then ToDrop(s.pc.loc) else Idle)
    case DropTail =>
      var (q, buffer) := Drop(s.q, s.pc.loc);
      s.(q := q, pc := HandBack(buffer))
    case ReturnDropped =>
      s.(free := if s.pc.buffer.Some? then s.free + [s.pc.buffer.value] else s.free, pc := Idle)
  }

  /** Taking these turns one after the other leads from `s` to `t`, inside the arrays. */
  ghost predicate Leads(s: Sys, acts: seq<Action>, t: Sys)
    decreases |acts|
  {
    if acts == [] then s == t
    else Turn(s, acts[0]) && InBounds(s, acts[0]) && Leads(Step(s, acts[0]), acts[1..], t)
  }

  lemma {:induction false} LeadsOn(s: Sys, a: seq<Action>, t: Sys, b: seq<Action>, u: Sys)
    requires Leads(s, a, t) && Leads(t, b, u)
    ensures Leads(s, a + b, u)
    decreases |a|
  {
    hide Step;
    hide Turn;
    hide InBounds;
    if a == [] {
      assert a + b == b;
    } else {
      assert (a + b)[1..] == a[1..] + b;
      LeadsOn(Step(s, a[0]), a[1..], t, b, u);
    }
  }

  lemma {:induction false} LeadsOne(s: Sys, a: Action, acts: seq<Action>, t: Sys)
    requires Turn(s, a) && InBounds(s, a) && Leads(Step(s, a), acts, t)
    ensures Leads(s, [a] + acts, t)
  {
    hide Step;
    hide Turn;
    hide InBounds;
    assert ([a] + acts)[1..] == acts;
  }

  // Tickets

  /** The request was written to its slave after it was added. */
  ghost predicate WasSent(log: seq<Sent>, r: Request) {
    exists j :: r.since <= j < |log| && log[j] == Sent(r.slave, r.mbx)
  }

  /** Ring position `loc` holds the request `r`. */
  ghost predicate Denotes(q: Queue, loc: nat, r: Request, log: seq<Sent>)
    requires Shape(q) && loc < EC_MBXPOOLSIZE
  {
    && q.mbxslave[loc] == r.slave && r.since <= |log|
    && match q.mbxstate[loc]
       case NONE => false
       case DONE => WasSent(log, r)
       case _ => q.mbx[loc] == Some(r.mbx)
  }

  ghost predicate HasTicket(q: Queue, req: map<int, Request>, loc: int) {
    exists k :: k in req && 0 <= k < |q.mbxticket| && q.mbxticket[k] == loc
  }

  /** Each ticket that a client owns stands for its request, in the ring and not removed. */
  ghost predicate Owned(q: Queue, req: map<int, Request>, log: seq<Sent>)
    requires Shape(q)
  {
    forall k :: k in req ==>
      && InUse(q, k) && InRing(q, q.mbxticket[k]) && !q.mbxremove[q.mbxticket[k]]
      && Denotes(q, q.mbxticket[k], req[k], log)
  }

  ghost predicate Unowned(q: Queue, req: map<int, Request>)
    requires Shape(q)
  {
    forall k :: 0 <= k < EC_MBXPOOLSIZE && k !in req ==> q.mbxticket[k] < 0
  }

  ghost predicate OneToOne(q: Queue, req: map<int, Request>)
    requires Shape(q)
  {
    forall j, k :: 0 <= j < k < EC_MBXPOOLSIZE && j in req && k in req ==> q.mbxticket[j] != q.mbxticket[k]
  }

  /** Each ring entry that is not removed has a ticket. */
  ghost predicate Covered(q: Queue, req: map<int, Request>)
    requires Shape(q)
  {
    forall loc :: InRing(q, loc) && !q.mbxremove[loc] ==> HasTicket(q, req, loc)
  }

  ghost predicate OutsideClean(q: Queue)
    requires Shape(q)
  {
    forall loc :: 0 <= loc < EC_MBXPOOLSIZE && !InRing(q, loc) ==> !q.mbxremove[loc]
  }

  /** The tickets that clients own stand, one to one, for the ring entries that are not
      marked for removal, and each ticket for the request of its owner. */
  ghost predicate Tickets(q: Queue, req: map<int, Request>, log: seq<Sent>)
    requires Shape(q)
  {
    Owned(q, req, log) && Unowned(q, req) && OneToOne(q, req) && Covered(q, req) && OutsideClean(q)
  }
}
