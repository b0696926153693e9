/** One pass of the handler for outgoing mailboxes (ec_main.c), without clients in between. */
module MailboxHandler {
  import opened EcTypes
  import opened MailboxPool
  import opened MailboxQueue
  import opened MailboxSystem
  import opened MailboxTickets

  datatype Entry = Entry(slave: nat, mbx: Option<nat>, remove: bool, state: SlotState)

  function EntryAt(q: Queue, loc: nat): Entry
    requires Shape(q) && loc < EC_MBXPOOLSIZE
  {
    Entry(q.mbxslave[loc], q.mbx[loc], q.mbxremove[loc], q.mbxstate[loc])
  }

  /** The requests in the ring, oldest first. */
  function Entries(q: Queue): (s: seq<Entry>)
    requires Shape(q)
    ensures |s| == q.listcount
  {
    seq(q.listcount, k requires 0 <= k < q.listcount && Shape(q) => EntryAt(q, At(q.listtail, k)))
  }

  lemma {:induction false} RotateEntries(q: Queue)
    requires Shape(q) && 0 < q.listcount < EC_MBXPOOLSIZE && TicketOf(q.mbxticket, q.listtail) < EC_MBXPOOLSIZE
    ensures Entries(Rotate(q, q.listtail).0) == Entries(q)[1..] + [Entries(q)[0]]
  {
    hide TicketOf;
    var a, b := Entries(Rotate(q, q.listtail).0), Entries(q)[1..] + [Entries(q)[0]];
    forall k | 0 <= k < q.listcount ensures a[k] == b[k] {
    }
  }

  lemma {:induction false} DropEntries(q: Queue)
    requires Shape(q) && q.listcount > 0
    ensures Entries(Drop(q, q.listtail).0) == Entries(q)[1..]
  {
  }

  lemma {:induction false} SlotEntries(q: Queue, q': Queue)
    requires Shape(q) && Shape(q') && q.listcount > 0 && q' == q.(mbxstate := q'.mbxstate, mbx := q'.mbx)
    requires forall i :: 0 <= i < EC_MBXPOOLSIZE && i != q.listtail ==>
      q'.mbxstate[i] == q.mbxstate[i] && q'.mbx[i] == q.mbx[i]
    ensures Entries(q') == [EntryAt(q', q.listtail)] + Entries(q)[1..]
  {
  }

  /** What the environment answers when the handler sends to an entry's slave: whether the
      slave is at least in PRE_OP, and the working counter of the mailbox write. */
  datatype Reply = Reply(ready: bool, wkc: int)

  predicate Waits(e: Entry) {
    e.state == REQ || e.state == FAIL
  }

  predicate GoesOut(e: Entry, r: Reply) {
    Waits(e) && r.ready && r.wkc > 0
  }

  /** The entry after the handler has visited it. */
  function Visit(e: Entry, r: Reply): Entry {
    if GoesOut(e, r) then e.(state := DONE, mbx := None)
    else if Waits(e) && r.ready then e.(state := FAIL)
    else e
  }

  /** What is left of a visited entry in the ring. */
  function Stays(e: Entry, r: Reply): (s: seq<Entry>)
    ensures |s| <= 1
  {
    if e.remove then [] else [Visit(e, r)]
  }

  /** The buffer that goes back to the pool at a visit. */
  function Back(e: Entry, r: Reply): seq<nat> {
    if e.mbx.Some? && (GoesOut(e, r) || e.remove) then [e.mbx.value] else []
  }

  /** Visited entries that stay in the ring, in their order. */
  function Survivors(es: seq<Entry>, rs: seq<Reply>): seq<Entry>
    requires |es| <= |rs|
  {
    if es == [] then [] else Survivors(es[..|es| - 1], rs) + Stays(es[|es| - 1], rs[|es| - 1])
  }

  /** Buffers that go back to the pool, in the order of the visits. */
  function Returns(es: seq<Entry>, rs: seq<Reply>): seq<nat>
    requires |es| <= |rs|
  {
    if es == [] then [] else Returns(es[..|es| - 1], rs) + Back(es[|es| - 1], rs[|es| - 1])
  }

  /** What a visit writes to the entry's slave. */
  function SentAt(e: Entry, r: Reply): seq<Sent> {
    if GoesOut(e, r) && e.mbx.Some? then [Sent(e.slave, e.mbx.value)] else []
  }

  /** Mailboxes that are written to slaves, in the order of the visits. */
  function Sends(es: seq<Entry>, rs: seq<Reply>): seq<Sent>
    requires |es| <= |rs|
  {
    if es == [] then [] else Sends(es[..|es| - 1], rs) + SentAt(es[|es| - 1], rs[|es| - 1])
  }

  /** How many entries wait. */
  function Waiting(es: seq<Entry>): (n: nat)
    ensures n <= |es|
  {
    if es == [] then 0 else Waiting(es[..|es| - 1]) + (if Waits(es[|es| - 1]) then 1 else 0)
  }

  /** Entries that wait have a buffer of the pool, and none is blank (`MailboxSafety.Filled`). */
  ghost predicate Fit(es: seq<Entry>) {
    forall k :: 0 <= k < |es| ==>
      && es[k].state != NONE
      && (Waits(es[k]) ==> es[k].mbx.Some?)
      && (es[k].mbx.Some? ==> es[k].mbx.value < EC_MBXPOOLSIZE)
  }

  /** How many pool buffers the entries own. */
  function Owned(es: seq<Entry>): nat {
    if es == [] then 0 else (if es[0].mbx.Some? then 1 else 0) + Owned(es[1..])
  }

  ghost predicate Ready(q: MbxQueue, pool: Pool, req: map<int, Request>, log: seq<Sent>)
    reads q.Footprint(), pool, pool.mbxemptylist
  {
    && q.Valid() && pool.Valid()
    && q.Footprint() !! {pool, pool.mbxemptylist}
    && Tickets(q.Value(), req, log)
    && Fit(Entries(q.Value()))
  }

  // A visit as steps of the handler

  /** The ring once the mailbox at the tail has been sent, or has failed. */
  function SentValue(q: Queue, r: Reply): (q': Queue)
    requires Shape(q)
    ensures Shape(q') && q'.listtail == q.listtail && q'.listcount == q.listcount
  {
    if !Waits(EntryAt(q, q.listtail)) || !r.ready then q
    else if r.wkc > 0 then
      q.(mbxstate := q.mbxstate[q.listtail := DONE], mbx := q.mbx[q.listtail := None])
    else q.(mbxstate := q.mbxstate[q.listtail := FAIL])
  }

  function SendActs(r: Reply): seq<Action> {
    if !r.ready then [Skip] else if r.wkc > 0 then [Send(true), ReturnBuffer, ClearSlot] else [Send(false)]
  }

  function MoveActs(e: Entry): seq<Action> {
    [RotateTail, Check] + (if e.remove then [DropTail, ReturnDropped] else [])
  }

  /** The steps of one visit. */
  function VisitActs(e: Entry, r: Reply): seq<Action> {
    [Load] + ((if Waits(e) then SendActs(r) else []) + MoveActs(e))
  }

  lemma {:induction false} SendIsRun(s: Sys, r: Reply)
    requires Shape(s.q) && s.q.mbx[s.q.listtail].Some? && Waits(EntryAt(s.q, s.q.listtail))
    requires s.pc == Loaded(s.q.listtail, s.q.mbxslave[s.q.listtail], s.q.mbx[s.q.listtail].value)
    ensures var e := EntryAt(s.q, s.q.listtail);
            Leads(s, SendActs(r), s.(q := SentValue(s.q, r), log := s.log + SentAt(e, r), pc := ToRotate(s.q.listtail),
                                     free := s.free + (if GoesOut(e, r) then [e.mbx.value] else [])))
  {
    hide InRing;
    var e := EntryAt(s.q, s.q.listtail);
    var t := s.(q := SentValue(s.q, r), log := s.log + SentAt(e, r), pc := ToRotate(s.q.listtail),
                free := s.free + (if GoesOut(e, r) then [e.mbx.value] else []));
    if !r.ready {
      assert Step(s, Skip) == t && [Skip][1..] == [];
    } else if r.wkc > 0 {
      var s1 := Step(s, Send(true));
      var s2 := Step(s1, ReturnBuffer);
      assert Step(s2, ClearSlot) == t;
      LeadsOne(s2, ClearSlot, [], t);
      LeadsOne(s1, ReturnBuffer, [ClearSlot], t);
      LeadsOne(s, Send(true), [ReturnBuffer, ClearSlot], t);
    } else {
      assert Step(s, Send(false)) == t && [Send(false)][1..] == [];
    }
  }

  lemma {:induction false} MoveIsRun(s: Sys)
    requires Shape(s.q) && Tickets(s.q, s.req, s.log) && 0 < s.q.listcount < EC_MBXPOOLSIZE && Fit(Entries(s.q))
    requires s.pc == ToRotate(s.q.listtail)
    ensures var e := EntryAt(s.q, s.q.listtail);
            Leads(s, MoveActs(e), s.(q := Moved(s.q), pc := Idle,
                                     free := s.free + (if e.remove && e.mbx.Some? then [e.mbx.value] else [])))
  {
    hide Tickets;
    hide Entries;
    hide Fit;
    hide Moved;
    hide Rotate;
    hide Drop;
    hide InRing;
    MoveKeepsOrder(s.q, s.req, s.log);
    TailEntry(s.q);
    MovedIs(s.q);
    assert s.free + [] == s.free && [RotateTail, Check] + [] == [RotateTail, Check];
    assert [RotateTail, Check] + [DropTail, ReturnDropped] == [RotateTail, Check, DropTail, ReturnDropped];
    if EntryAt(s.q, s.q.listtail).remove {
      LeaveIsRun(s);
    } else {
      StayIsRun(s);
    }
  }

  lemma {:induction false} StayIsRun(s: Sys)
    requires Shape(s.q) && s.pc == ToRotate(s.q.listtail) && !Rotate(s.q, s.q.listtail).0.mbxremove[s.q.listtail]
    ensures Leads(s, [RotateTail, Check], s.(q := Rotate(s.q, s.q.listtail).0, pc := Idle))
  {
    hide Rotate;
    var s1 := Step(s, RotateTail);
    LeadsOne(s1, Check, [], Step(s1, Check));
    LeadsOne(s, RotateTail, [Check], Step(s1, Check));
    assert [RotateTail] + [Check] == [RotateTail, Check];
  }

  lemma {:induction false} LeaveIsRun(s: Sys)
    requires Shape(s.q) && s.pc == ToRotate(s.q.listtail) && s.q.listcount > 0
    requires Rotate(s.q, s.q.listtail).0 == s.q && s.q.mbxremove[s.q.listtail]
    ensures var back := s.q.mbx[s.q.listtail];
            Leads(s, [RotateTail, Check, DropTail, ReturnDropped],
                  s.(q := Drop(s.q, s.q.listtail).0, pc := Idle,
                     free := s.free + (if back.Some? then [back.value] else [])))
  {
    assert Drop(s.q, s.q.listtail).1 == s.q.mbx[s.q.listtail];
    hide Rotate;
    hide Drop;
    var s1 := Step(s, RotateTail);
    var s2 := Step(s1, Check);
    var s3 := Step(s2, DropTail);
    var t := Step(s3, ReturnDropped);
    LeadsOne(s3, ReturnDropped, [], t);
    LeadsOne(s2, DropTail, [ReturnDropped], t);
    LeadsOne(s1, Check, [DropTail, ReturnDropped], t);
    LeadsOne(s, RotateTail, [Check, DropTail, ReturnDropped], t);
    assert [RotateTail] + [Check, DropTail, ReturnDropped] == [RotateTail, Check, DropTail, ReturnDropped];
    assert s.free + [] == s.free;
  }

  lemma {:induction false} MovedIs(q: Queue)
    requires Shape(q) && q.listcount > 0
    ensures var q1 := Rotate(q, q.listtail).0;
            && Moved(q) == (if q1.mbxremove[q.listtail] && q1.listcount > 0 then Drop(q1, q.listtail).0 else q1)
            && (q1 == q ==> Drop(q1, q.listtail).1 == q.mbx[q.listtail])
  {
    hide Rotate;
  }

  /** A visit with a reply of the environment is what the steps of the handler do. */
  lemma {:induction false} VisitIsRun(s: Sys, r: Reply, t: Sys)
    requires Shape(s.q) && 0 < s.q.listcount < EC_MBXPOOLSIZE && s.pc.Idle? && s.left > 0
    requires Fit(Entries(s.q)) && Fit(Entries(SentValue(s.q, r)))
    requires Tickets(SentValue(s.q, r), s.req, t.log)
    requires var e := EntryAt(s.q, s.q.listtail);
             t == s.(q := Moved(SentValue(s.q, r)), free := s.free + Back(e, r), log := s.log + SentAt(e, r),
                     left := s.left - 1)
    ensures Leads(s, VisitActs(EntryAt(s.q, s.q.listtail), r), t)
  {
    hide Tickets;
    hide Moved;
    hide Rotate;
    hide Drop;
    hide Fit;
    hide Entries;
    hide InRing;
    var e, tail := EntryAt(s.q, s.q.listtail), s.q.listtail;
    TailFits(s.q);
    var s1 := Step(s, Load);
    var out := if GoesOut(e, r) && e.mbx.Some? then [e.mbx.value] else [];
    var s2 := s1.(q := SentValue(s.q, r), log := t.log, pc := ToRotate(tail), free := s.free + out);
    var e2 := EntryAt(s2.q, tail);
    assert e2 == Visit(e, r) && MoveActs(e2) == MoveActs(e);
    assert Waits(e) ==> Leads(s1, SendActs(r), s2) by {
      if Waits(e) {
        SendIsRun(s1, r);
      }
    }
    assert !Waits(e) ==> s1 == s2;
    MoveIsRun(s2);
    BackIs(e, e2, r);
    hide SendActs;
    hide MoveActs;
    hide SentValue;
    hide Back;
    hide SentAt;
    var back := if e2.remove && e2.mbx.Some? then [e2.mbx.value] else [];
    assert s.free + out + back == s.free + (out + back);
    LeadsOn(s1, if Waits(e) then SendActs(r) else [], s2, MoveActs(e), t);
    LeadsOne(s, Load, (if Waits(e) then SendActs(r) else []) + MoveActs(e), t);
  }

  lemma {:induction false} TailFits(q: Queue)
    requires Shape(q) && q.listcount > 0 && Fit(Entries(q))
    ensures var e := EntryAt(q, q.listtail); e.state != NONE && (Waits(e) ==> e.mbx.Some?)
  {
    TailEntry(q);
    hide Entries;
  }

  // What the owner of a request gets

  /** A visit that writes the mailbox, whether for the first time or again, makes its request done. */
  lemma {:induction false} VisitCompletes(q: Queue, r: Reply, req: map<int, Request>, log: seq<Sent>, k: int)
    requires Shape(q) && Tickets(q, req, log) && 0 < q.listcount < EC_MBXPOOLSIZE
    requires k in req && InUse(q, k) && q.mbxticket[k] == q.listtail
    requires q.mbxstate[q.listtail] == REQ || q.mbxstate[q.listtail] == FAIL
    requires r.ready && r.wkc > 0
    ensures var q' := Moved(SentValue(q, r));
            && InUse(q', k) && q'.mbxticket[k] == q.listhead && q'.mbxstate[q'.mbxticket[k]] == DONE
            && q'.mbxslave[q'.mbxticket[k]] == q.mbxslave[q.listtail] && !q'.mbxremove[q'.mbxticket[k]]
  {
    var ticket := TailTicket(q, req, log);
    assert InRing(q, q.listtail) && !q.mbxremove[q.listtail];
    OneTicket(q, req, log, k, ticket);
    StayingIsRotated(SentValue(q, r));
    hide Tickets;
    hide TicketOf;
    hide InRing;
    hide Moved;
  }

  lemma {:induction false} OneTicket(q: Queue, req: map<int, Request>, log: seq<Sent>, j: int, k: int)
    requires Shape(q) && Tickets(q, req, log) && j in req && k in req
    requires InUse(q, j) && InUse(q, k) && q.mbxticket[j] == q.mbxticket[k]
    ensures j == k
  {
  }

  /** A visit that does not write it leaves its request undone. */
  lemma {:induction false} VisitFails(q: Queue, r: Reply)
    requires Shape(q) && (q.mbxstate[q.listtail] == REQ || q.mbxstate[q.listtail] == FAIL)
    requires !r.ready || r.wkc <= 0
    ensures var q' := SentValue(q, r);
            && q'.mbxstate[q.listtail] == (if r.ready then FAIL else q.mbxstate[q.listtail]) && q'.mbx == q.mbx
  {
  }

  /** When every slave was ready and took its mailbox, all tickets that clients own are done. */
  lemma {:induction false} AllDone(q: Queue, req: map<int, Request>, log: seq<Sent>, es: seq<Entry>, rs: seq<Reply>)
    requires Shape(q) && Tickets(q, req, log) && |es| <= |rs| && Fit(es) && Entries(q) == Survivors(es, rs)
    requires forall k :: 0 <= k < |rs| ==> rs[k].ready && rs[k].wkc > 0
    ensures forall k :: k in req ==> InUse(q, k) && q.mbxstate[q.mbxticket[k]] == DONE
  {
    SurvivorsAreDone(es, rs);
    hide Survivors;
    forall k | k in req ensures InUse(q, k) && q.mbxstate[q.mbxticket[k]] == DONE {
      assert InUse(q, k) && InRing(q, q.mbxticket[k]);
      var n := Behind(q.listtail, q.mbxticket[k]);
      assert Entries(q)[n] == EntryAt(q, q.mbxticket[k]);
      assert Entries(q)[n].state == DONE;
    }
  }

  lemma {:induction false} SurvivorsAreDone(es: seq<Entry>, rs: seq<Reply>)
    requires |es| <= |rs| && Fit(es) && forall k :: 0 <= k < |rs| ==> rs[k].ready && rs[k].wkc > 0
    ensures forall i :: 0 <= i < |Survivors(es, rs)| ==> Survivors(es, rs)[i].state == DONE
  {
    if es != [] {
      var front, last := es[..|es| - 1], es[|es| - 1];
      assert Fit(front) by {
        forall k | 0 <= k < |front| ensures front[k] == es[k] {
        }
      }
      SurvivorsAreDone(front, rs);
      assert Survivors(es, rs) == Survivors(front, rs) + Stays(last, rs[|es| - 1]);
    }
  }

  lemma {:induction false} WholePass(es: seq<Entry>, rs: seq<Reply>, now: seq<Entry>, n: nat)
    requires n == |es| <= |rs| && now == es[n..] + Survivors(es[..n], rs)
    ensures now == Survivors(es, rs)
  {
    hide Survivors;
    assert es[..n] == es && es[n..] == [];
  }

  /** A client whose request is in the ring while the handler makes a pass in which every mailbox
      is taken: asking for its ticket then succeeds, and gives the ticket back. */
  method PassThenDone(q: MbxQueue, pool: Pool, limit: int, replies: seq<Reply>, ticket: int,
                      ghost held: set<nat>, ghost req: map<int, Request>, ghost log: seq<Sent>)
      returns (ok: bool)
    requires Ready(q, pool, req, log) && q.listcount < EC_MBXPOOLSIZE && ticket in req
    requires pool.listcount + Owned(Entries(q.Value())) <= EC_MBXPOOLSIZE
    requires |replies| >= q.listcount && limit >= q.listcount
    requires forall k :: 0 <= k < |replies| ==> replies[k].ready && replies[k].wkc > 0
    modifies q.Footprint(), pool, pool.mbxemptylist
    ensures ok && 0 <= ticket < EC_MBXPOOLSIZE && q.mbxticket.Length == EC_MBXPOOLSIZE && q.mbxticket[ticket] == -1
  {
    hide Tickets;
    hide Survivors;
    hide Returns;
    hide Sends;
    hide Waiting;
    hide AllActs;
    hide Leads;
    hide Owned;
    hide Entries;
    hide Fit;
    ghost var es := Entries(q.Value());
    var limitcnt, visited;
    ghost var log', acts;
    limitcnt, visited, log', acts := OutHandler(q, pool, limit, replies, held, req, log);
    WholePass(es, replies, Entries(q.Value()), visited);
    AllDone(q.Value(), req, log', es, replies);
    ok := q.DoneQueue(ticket);
  }

  /** A buffer goes back when the mailbox is sent, or when the entry is dropped. */
  lemma {:induction false} BackIs(e: Entry, e2: Entry, r: Reply)
    requires e2 == Visit(e, r)
    ensures (if GoesOut(e, r) && e.mbx.Some? then [e.mbx.value] else [])
            + (if e2.remove && e2.mbx.Some? then [e2.mbx.value] else []) == Back(e, r)
  {
  }

  /** Sends the entry at the tail if it waits. The result is the log with what was sent. */
  method SendTail(q: MbxQueue, pool: Pool, r: Reply, ghost req: map<int, Request>, ghost log: seq<Sent>)
      returns (ghost log': seq<Sent>)
    requires Ready(q, pool, req, log) && q.listcount > 0
    requires Waits(EntryAt(q.Value(), q.listtail)) && q.mbx[q.listtail].Some?
    requires pool.listcount < EC_MBXPOOLSIZE
    modifies q.Footprint(), pool, pool.mbxemptylist
    ensures Ready(q, pool, req, log') && q.Value() == SentValue(old(q.Value()), r)
    ensures q.listtail == old(q.listtail) && q.listcount == old(q.listcount)
    ensures var e := old(EntryAt(q.Value(), q.listtail));
            && Entries(q.Value()) == [Visit(e, r)] + old(Entries(q.Value()))[1..]
            && log' == (if GoesOut(e, r) then log + [Sent(e.slave, e.mbx.value)] else log)
            && pool.Free() == (if GoesOut(e, r) then old(pool.Free()) + [e.mbx.value] else old(pool.Free()))
    ensures var (tail, slave, buffer) := (old(q.listtail), old(q.mbxslave[q.listtail]), old(q.mbx[q.listtail]));
            && (!r.ready ==> q.Value() == old(q.Value()) && log' == log && pool.Free() == old(pool.Free()))
            && (r.ready && r.wkc <= 0 ==>
                  && q.mbxstate[..] == old(q.mbxstate[..])[tail := FAIL] && q.mbx[..] == old(q.mbx[..])
                  && log' == log && pool.Free() == old(pool.Free()))
            && (r.ready && r.wkc > 0 ==>
                  && q.mbxstate[..] == old(q.mbxstate[..])[tail := DONE] && q.mbx[..] == old(q.mbx[..])[tail := None]
                  && log' == log + [Sent(slave, buffer.value)] && pool.Free() == old(pool.Free()) + [buffer.value])
  {
    hide Tickets;
    hide Entries;
    var ticketloc := q.listtail;
    TailEntry(q.Value());
    assert Fit(Entries(q.Value())) && q.mbx[ticketloc].value < EC_MBXPOOLSIZE;
    hide Fit;
    log' := log;
    if r.ready {
      var mbx := q.mbx[ticketloc].value;
      ghost var was := q.Value();
      if r.wkc > 0 {
        log' := log + [Sent(q.mbxslave[ticketloc], mbx)];
        q.mbxstate[ticketloc] := DONE;
        var _ := pool.DropMbx(mbx);
        q.mbx[ticketloc] := None;
      } else {
        if q.mbxstate[ticketloc] != FAIL {
          q.mbxstate[ticketloc] := FAIL;
        }
      }
      TailVisited(was, q.Value(), r, req, log, log');
    } else {
      assert Entries(q.Value()) == [Entries(q.Value())[0]] + Entries(q.Value())[1..];
    }
  }

  lemma {:induction false} TailVisited(
    q: Queue, q': Queue, r: Reply, req: map<int, Request>, log: seq<Sent>, log': seq<Sent>)
    requires Shape(q) && q.listcount > 0 && Tickets(q, req, log) && Fit(Entries(q))
    requires Waits(EntryAt(q, q.listtail)) && q.mbx[q.listtail].Some? && r.ready
    requires q' == if r.wkc > 0 then q.(mbxstate := q.mbxstate[q.listtail := DONE], mbx := q.mbx[q.listtail := None])
                   else q.(mbxstate := q.mbxstate[q.listtail := FAIL])
    requires log' == if r.wkc > 0 then log + [Sent(q.mbxslave[q.listtail], q.mbx[q.listtail].value)] else log
    ensures Tickets(q', req, log') && Fit(Entries(q'))
    ensures Entries(q') == [Visit(EntryAt(q, q.listtail), r)] + Entries(q)[1..]
  {
    TailEntry(q);
    SentKeepsTickets(q, q', req, log, log', q.mbx[q.listtail].value);
    SlotEntries(q, q');
    hide Tickets;
    hide Entries;
  }

  lemma {:induction false} SentKeepsTickets(
    q: Queue, q': Queue, req: map<int, Request>, log: seq<Sent>, log': seq<Sent>, mbx: nat)
    requires Shape(q) && Tickets(q, req, log) && q.mbx[q.listtail] == Some(mbx) && Shape(q')
    requires q.mbxstate[q.listtail] in {REQ, FAIL}
    requires
      || (log' == log && q' == q.(mbxstate := q.mbxstate[q.listtail := FAIL]))
      || (log' == log + [Sent(q.mbxslave[q.listtail], mbx)]
          && q' == q.(mbxstate := q.mbxstate[q.listtail := DONE], mbx := q.mbx[q.listtail := None]))
    ensures Tickets(q', req, log')
  {
    forall k | k in req && q.mbxticket[k] == q.listtail ensures Denotes(q', q.listtail, req[k], log') {
      assert Denotes(q, q.mbxticket[k], req[k], log);
      if log' != log {
        assert log'[|log|] == Sent(req[k].slave, req[k].mbx);
      }
    }
    SlotKeepsTickets(q, q', req, log, log', q.listtail);
  }

  /** The ring after the tail entry has been rotated, or dropped if it is marked for removal. */
  function Moved(q: Queue): Queue
    requires Shape(q) && q.listcount > 0
  {
    var q1 := Rotate(q, q.listtail).0;
    if q1.mbxremove[q.listtail] && q1.listcount > 0 then Drop(q1, q.listtail).0 else q1
  }

  lemma {:induction false} TailEntry(q: Queue)
    requires Shape(q) && q.listcount > 0
    ensures Entries(q)[0] == EntryAt(q, q.listtail)
  {
  }

  lemma {:induction false} MoveStaying(q: Queue, req: map<int, Request>, log: seq<Sent>)
    requires Shape(q) && Tickets(q, req, log) && 0 < q.listcount < EC_MBXPOOLSIZE && !q.mbxremove[q.listtail]
    ensures Tickets(Moved(q), req, log) && Entries(Moved(q)) == Entries(q)[1..] + [Entries(q)[0]]
    ensures var q1 := Rotate(q, q.listtail).0; q1.listcount > 0 && !q1.mbxremove[q.listtail]
  {
    var ticket := TailTicket(q, req, log);
    StayingIsRotated(q);
    RotateKeepsTickets(q, req, log);
    RotateEntries(q);
    hide *;
  }

  lemma {:induction false} StayingIsRotated(q: Queue)
    requires Shape(q) && 0 < q.listcount < EC_MBXPOOLSIZE && !q.mbxremove[q.listtail]
    ensures var q1 := Rotate(q, q.listtail).0;
            q1 == Moved(q) && q1.listcount > 0 && !q1.mbxremove[q.listtail]
  {
    hide TicketOf;
  }

  lemma {:induction false} MoveRemoved(q: Queue, req: map<int, Request>, log: seq<Sent>)
    requires Shape(q) && Tickets(q, req, log) && 0 < q.listcount < EC_MBXPOOLSIZE && q.mbxremove[q.listtail]
    ensures Tickets(Moved(q), req, log) && Entries(Moved(q)) == Entries(q)[1..]
    ensures Rotate(q, q.listtail).0 == q
  {
    var ticket := TailTicket(q, req, log);
    assert Rotate(q, q.listtail).0 == q;
    DropKeepsTickets(q, req, log);
    hide Tickets;
    hide Rotate;
    DropEntries(q);
    hide Entries;
    hide Drop;
  }

  lemma {:induction false} FitMoves(es: seq<Entry>, moved: seq<Entry>)
    requires es != [] && Fit(es) && Fit(moved)
    ensures Fit(es[1..] + moved)
  {
  }

  lemma {:induction false} MoveKeepsOrder(q: Queue, req: map<int, Request>, log: seq<Sent>)
    requires Shape(q) && Tickets(q, req, log) && 0 < q.listcount < EC_MBXPOOLSIZE && Fit(Entries(q))
    ensures Shape(Moved(q)) && Tickets(Moved(q), req, log) && Fit(Entries(Moved(q)))
    ensures var e, q1 := Entries(q)[0], Rotate(q, q.listtail).0;
            && Entries(Moved(q)) == Entries(q)[1..] + (if e.remove then [] else [e])
            && q1.listcount > 0 && q1.mbxremove[q.listtail] == e.remove
            && (e.remove ==> q1 == q)
            && (e.mbx.Some? ==> e.mbx.value < EC_MBXPOOLSIZE)
            && q.mbx[q.listtail] == e.mbx
  {
    TailEntry(q);
    var es := Entries(q);
    FitMoves(es, if es[0].remove then [] else [es[0]]);
    var e := es[0];
    assert e.mbx.Some? ==> e.mbx.value < EC_MBXPOOLSIZE;
    hide Fit;
    if q.mbxremove[q.listtail] {
      MoveRemoved(q, req, log);
    } else {
      MoveStaying(q, req, log);
    }
    hide Tickets;
    hide Entries;
    hide Moved;
    hide Rotate;
    hide Drop;
  }

  /** Rotates or drops the entry at the tail, once it has been sent or has failed. */
  method MoveTail(q: MbxQueue, pool: Pool, ghost req: map<int, Request>, ghost log: seq<Sent>)
    requires Ready(q, pool, req, log) && 0 < q.listcount < EC_MBXPOOLSIZE
    requires q.mbx[q.listtail].Some? ==> pool.listcount < EC_MBXPOOLSIZE
    modifies q.Footprint(), pool, pool.mbxemptylist
    ensures Ready(q, pool, req, log) && q.Value() == Moved(old(q.Value()))
    ensures var e := old(Entries(q.Value()))[0];
            && Entries(q.Value()) == old(Entries(q.Value()))[1..] + (if e.remove then [] else [e])
            && pool.Free() == (if e.remove && e.mbx.Some? then old(pool.Free()) + [e.mbx.value] else old(pool.Free()))
  {
    var ticketloc := q.listtail;
    ghost var was := q.Value();
    MoveKeepsOrder(was, req, log);
    MovedIs(was);
    hide Tickets;
    hide Rotate;
    hide Drop;
    hide Entries;
    hide EntryAt;
    hide Moved;
    var _ := q.RotateQueue(ticketloc);
    if q.mbxremove[ticketloc] {
      var mbx := q.DropQueue(ticketloc);
      if mbx.Some? {
        var _ := pool.DropMbx(mbx.value);
      }
    }
  }

  lemma {:induction false} OwnedConcat(a: seq<Entry>, b: seq<Entry>)
    ensures Owned(a + b) == Owned(a) + Owned(b)
  {
    if a == [] {
      assert a + b == b;
    } else {
      assert (a + b)[1..] == a[1..] + b;
      OwnedConcat(a[1..], b);
    }
  }

  lemma {:induction false} OwnedMoves(es: seq<Entry>, moved: seq<Entry>)
    requires es != [] && |moved| <= 1
    ensures Owned(es[1..] + moved)
            == Owned(es) - (if es[0].mbx.Some? then 1 else 0)
               + (if |moved| == 1 && moved[0].mbx.Some? then 1 else 0)
  {
    OwnedConcat(es[1..], moved);
  }

  /** The state of queue and pool between two visits, `left` of which are still to come in this pass. */
  ghost function SysOf(q: MbxQueue, pool: Pool, held: set<nat>, req: map<int, Request>, log: seq<Sent>, left: nat): Sys
    requires pool.Valid()
    reads q.Footprint(), pool, pool.mbxemptylist
  {
    Sys(q.Value(), pool.Free(), held, req, Idle, log, left)
  }

  /** What one visit does to the entry at the tail, given what is known about the others. */
  method VisitTail(q: MbxQueue, pool: Pool, r: Reply, ghost req: map<int, Request>, ghost log: seq<Sent>)
      returns (waited: bool, ghost log': seq<Sent>)
    requires Ready(q, pool, req, log) && 0 < q.listcount < EC_MBXPOOLSIZE
    requires pool.listcount + Owned(Entries(q.Value())) <= EC_MBXPOOLSIZE
    modifies q.Footprint(), pool, pool.mbxemptylist
    ensures Ready(q, pool, req, log')
    ensures pool.listcount + Owned(Entries(q.Value())) <= EC_MBXPOOLSIZE
    ensures var e := old(Entries(q.Value()))[0];
            && waited == Waits(e)
            && Entries(q.Value()) == old(Entries(q.Value()))[1..] + Stays(e, r)
            && pool.Free() == old(pool.Free()) + Back(e, r)
            && log' == log + SentAt(e, r)
            && q.Value() == Moved(SentValue(old(q.Value()), r))
    ensures Fit(Entries(SentValue(old(q.Value()), r))) && Tickets(SentValue(old(q.Value()), r), req, log')
  {
    hide Tickets;
    ghost var es := Entries(q.Value());
    assert EntryAt(q.Value(), q.listtail) == es[0];
    waited := false;
    log' := log;
    OwnedMoves(es, Stays(es[0], r));
    match q.mbxstate[q.listtail] {
      case REQ =>
        waited := true;
        log' := SendTail(q, pool, r, req, log);
      case FAIL =>
        waited := true;
        log' := SendTail(q, pool, r, req, log);
      case _ =>
    }
    hide Owned;
    assert Entries(q.Value()) == [Visit(es[0], r)] + es[1..];
    assert EntryAt(q.Value(), q.listtail) == Entries(q.Value())[0];
    MoveTail(q, pool, req, log');
  }

  /** One visit, as steps of the handler. */
  method RunVisit(q: MbxQueue, pool: Pool, r: Reply, ghost held: set<nat>, ghost req: map<int, Request>,
                  ghost log: seq<Sent>, ghost left: nat)
      returns (waited: bool, ghost log': seq<Sent>)
    requires Ready(q, pool, req, log) && 0 < q.listcount < EC_MBXPOOLSIZE
    requires pool.listcount + Owned(Entries(q.Value())) <= EC_MBXPOOLSIZE && left > 0
    modifies q.Footprint(), pool, pool.mbxemptylist
    ensures Ready(q, pool, req, log')
    ensures pool.listcount + Owned(Entries(q.Value())) <= EC_MBXPOOLSIZE
    ensures var e := old(Entries(q.Value()))[0];
            && waited == Waits(e)
            && Entries(q.Value()) == old(Entries(q.Value()))[1..] + Stays(e, r)
            && pool.Free() == old(pool.Free()) + Back(e, r)
            && log' == log + SentAt(e, r)
            && Leads(old(SysOf(q, pool, held, req, log, left)), VisitActs(e, r),
               SysOf(q, pool, held, req, log', left - 1))
  {
    hide Tickets;
    hide Owned;
    hide Fit;
    hide Entries;
    hide EntryAt;
    hide Waits;
    hide Stays;
    hide Back;
    hide SentAt;
    hide VisitActs;
    hide Moved;
    hide SentValue;
    ghost var before := SysOf(q, pool, held, req, log, left);
    TailEntry(before.q);
    waited, log' := VisitTail(q, pool, r, req, log);
    VisitIsRun(before, r, SysOf(q, pool, held, req, log', left - 1));
  }

  /** One pass over the ring. `replies[k]` is what the environment answers at the k-th visit.
      Without other clients in between, and with the ring not full, the pass visits the
      requests once each, oldest first, until the limit is reached; the ones that stay are
      queued again in the same order. */
  method OutHandler(q: MbxQueue, pool: Pool, limit: int, replies: seq<Reply>,
                    ghost held: set<nat>, ghost req: map<int, Request>, ghost log: seq<Sent>)
      returns (limitcnt: nat, visited: nat, ghost log': seq<Sent>, ghost acts: seq<Action>)
    requires Ready(q, pool, req, log) && q.listcount < EC_MBXPOOLSIZE
    requires pool.listcount + Owned(Entries(q.Value())) <= EC_MBXPOOLSIZE
    requires |replies| >= q.listcount
    modifies q.Footprint(), pool, pool.mbxemptylist
    ensures Ready(q, pool, req, log')
    ensures visited <= old(q.listcount)
    ensures limit >= old(q.listcount) ==> visited == old(q.listcount)
    ensures var es := old(Entries(q.Value()));
            && Entries(q.Value()) == es[visited..] + Survivors(es[..visited], replies)
            && pool.Free() == old(pool.Free()) + Returns(es[..visited], replies)
            && log' == log + Sends(es[..visited], replies)
            && limitcnt == Waiting(es[..visited])
            && (visited < |es| ==> limitcnt > limit)
            && acts == [BeginPass] + AllActs(es[..visited], replies)
    ensures Leads(old(SysOf(q, pool, held, req, log, 0)), acts,
      SysOf(q, pool, held, req, log', old(q.listcount) - visited))
  {
    hide Tickets;
    hide Fit;
    hide Owned;
    hide Entries;
    hide EntryAt;
    hide Waits;
    hide Stays;
    hide Back;
    hide Survivors;
    hide Returns;
    hide SentAt;
    hide Sends;
    hide Waiting;
    hide VisitActs;
    hide AllActs;
    hide PassAt;
    hide Leads;
    ghost var es := Entries(q.Value());
    ghost var start := SysOf(q, pool, held, req, log, 0);
    var listcount := q.listcount;
    limitcnt, visited := 0, 0;
    log', acts := log, [BeginPass];
    PassBegins(es, replies, start.free, log);
    PassStarts(start);
    while limitcnt <= limit && listcount > 0
      invariant visited + listcount == |es| < EC_MBXPOOLSIZE
      invariant Ready(q, pool, req, log') && q.listcount < EC_MBXPOOLSIZE
      invariant pool.listcount + Owned(Entries(q.Value())) <= EC_MBXPOOLSIZE
      invariant PassAt(es, replies, visited, start.free, log, Entries(q.Value()), pool.Free(), log', limitcnt, acts)
      invariant Leads(start, acts, SysOf(q, pool, held, req, log', listcount))
    {
      ghost var before, now := SysOf(q, pool, held, req, log', listcount), Entries(q.Value());
      NextIs(es, replies, visited, start.free, log, now, before.free, log', limitcnt, acts);
      var waited;
      waited, log' := RunVisit(q, pool, replies[visited], held, req, log', listcount);
      listcount := listcount - 1;
      PassGoesOn(es, replies, visited, start.free, log, now, before.free, before.log, limitcnt, acts,
                 Entries(q.Value()), pool.Free(), log', waited);
      LeadsOn(start, acts, before, VisitActs(es[visited], replies[visited]),
        SysOf(q, pool, held, req, log', listcount));
      acts := acts + VisitActs(es[visited], replies[visited]);
      if waited {
        limitcnt := limitcnt + 1;
      }
      visited := visited + 1;
    }
    PassIs(es, replies, visited, start.free, log, Entries(q.Value()), pool.Free(), log', limitcnt, acts);
  }

  /** What `n` visits make of the entries `es`, the free buffers and the log. */
  ghost predicate PassAt(es: seq<Entry>, rs: seq<Reply>, n: nat, free: seq<nat>, log: seq<Sent>,
                         now: seq<Entry>, nowFree: seq<nat>, nowLog: seq<Sent>, limitcnt: nat, acts: seq<Action>)
  {
    && n <= |es| <= |rs|
    && now == es[n..] + Survivors(es[..n], rs) && nowFree == free + Returns(es[..n], rs)
    && nowLog == log + Sends(es[..n], rs) && limitcnt == Waiting(es[..n]) && acts == [BeginPass] + AllActs(es[..n], rs)
  }

  lemma {:induction false} PassBegins(es: seq<Entry>, rs: seq<Reply>, free: seq<nat>, log: seq<Sent>)
    requires |es| <= |rs|
    ensures PassAt(es, rs, 0, free, log, es, free, log, 0, [BeginPass])
  {
    assert es[..0] == [] && es[0..] + [] == es && free + [] == free && log + [] == log;
    assert [BeginPass] + [] == [BeginPass];
  }

  lemma {:induction false} NextIs(
    es: seq<Entry>, rs: seq<Reply>, n: nat, free: seq<nat>, log: seq<Sent>,
    now: seq<Entry>, nowFree: seq<nat>, nowLog: seq<Sent>, limitcnt: nat, acts: seq<Action>)
    requires PassAt(es, rs, n, free, log, now, nowFree, nowLog, limitcnt, acts) && n < |es|
    ensures |es| <= |rs| && |now| > 0 && now[0] == es[n]
  {
    PassIs(es, rs, n, free, log, now, nowFree, nowLog, limitcnt, acts);
    hide *;
  }

  lemma {:induction false} PassIs(
    es: seq<Entry>, rs: seq<Reply>, n: nat, free: seq<nat>, log: seq<Sent>,
    now: seq<Entry>, nowFree: seq<nat>, nowLog: seq<Sent>, limitcnt: nat, acts: seq<Action>)
    requires PassAt(es, rs, n, free, log, now, nowFree, nowLog, limitcnt, acts)
    ensures n <= |es| <= |rs|
    ensures now == es[n..] + Survivors(es[..n], rs) && nowFree == free + Returns(es[..n], rs)
    ensures nowLog == log + Sends(es[..n], rs) && limitcnt == Waiting(es[..n]) <= n
    ensures acts == [BeginPass] + AllActs(es[..n], rs)
  {
  }

  lemma {:induction false} PassGoesOn(
    es: seq<Entry>, rs: seq<Reply>, n: nat, free: seq<nat>, log: seq<Sent>,
    now: seq<Entry>, nowFree: seq<nat>, nowLog: seq<Sent>, limitcnt: nat, acts: seq<Action>,
    next: seq<Entry>, nextFree: seq<nat>, nextLog: seq<Sent>, waited: bool)
    requires PassAt(es, rs, n, free, log, now, nowFree, nowLog, limitcnt, acts) && n < |es| && |now| > 0
    requires waited == Waits(now[0]) && next == now[1..] + Stays(now[0], rs[n])
    requires nextFree == nowFree + Back(now[0], rs[n]) && nextLog == nowLog + SentAt(now[0], rs[n])
    ensures PassAt(es, rs, n + 1, free, log, next, nextFree, nextLog, limitcnt + (if waited then 1 else 0),
                   acts + VisitActs(es[n], rs[n]))
  {
    hide Stays;
    hide Back;
    hide SentAt;
    hide Waits;
    hide VisitActs;
    assert es[..n + 1][..n] == es[..n] && now[0] == es[n];
    GoesOnUnfolded(es, rs, n);
    hide Survivors;
    hide Returns;
    hide Sends;
    hide Waiting;
    hide AllActs;
    assert now[1..] == es[n + 1..] + Survivors(es[..n], rs);
  }

  lemma {:induction false} GoesOnUnfolded(es: seq<Entry>, rs: seq<Reply>, n: nat)
    requires n < |es| <= |rs|
    ensures Survivors(es[..n + 1], rs) == Survivors(es[..n], rs) + Stays(es[n], rs[n])
    ensures Returns(es[..n + 1], rs) == Returns(es[..n], rs) + Back(es[n], rs[n])
    ensures Sends(es[..n + 1], rs) == Sends(es[..n], rs) + SentAt(es[n], rs[n])
    ensures Waiting(es[..n + 1]) == Waiting(es[..n]) + (if Waits(es[n]) then 1 else 0)
    ensures AllActs(es[..n + 1], rs) == AllActs(es[..n], rs) + VisitActs(es[n], rs[n])
  {
    hide Stays;
    hide Back;
    hide SentAt;
    hide Waits;
    hide VisitActs;
    assert es[..n + 1][..n] == es[..n];
  }

  /** The steps of the visits, one after the other. */
  function AllActs(es: seq<Entry>, rs: seq<Reply>): seq<Action>
    requires |es| <= |rs|
  {
    if es == [] then [] else AllActs(es[..|es| - 1], rs) + VisitActs(es[|es| - 1], rs[|es| - 1])
  }

  lemma {:induction false} PassStarts(s: Sys)
    requires s.pc.Idle? && Shape(s.q)
    ensures Leads(s, [BeginPass], s.(left := s.q.listcount))
  {
    LeadsOne(s, BeginPass, [], Step(s, BeginPass));
    assert [BeginPass] + [] == [BeginPass];
  }
}
