/** The transmit queue for mailboxes: a ring of requests and the tickets that clients hold
    for them (ec_main.c). Every operation is stated once on values, for the reasoning about
    interleavings, and once as the method that updates the ring in place. */
module MailboxQueue {
  import opened EcTypes
  import opened MailboxPool

  /** EC_MBXQUEUESTATE_NONE .. EC_MBXQUEUESTATE_DONE. */
  datatype SlotState = NONE | REQ | FAIL | DONE

  /** A mailbox buffer is named by its index in the pool. */
  datatype Queue = Queue(
    mbxticket: seq<int>,          // ticket -> ring position, negative when the ticket is free
    mbxslave: seq<nat>,
    mbx: seq<Option<nat>>,
    mbxremove: seq<bool>,
    mbxstate: seq<SlotState>,
    listhead: nat,
    listtail: nat,
    listcount: nat)

  predicate Shape(q: Queue) {
    && |q.mbxticket| == |q.mbxslave| == |q.mbx| == |q.mbxremove| == |q.mbxstate| == EC_MBXPOOLSIZE
    && q.listhead < EC_MBXPOOLSIZE && q.listtail < EC_MBXPOOLSIZE && q.listcount <= EC_MBXPOOLSIZE
    && q.listhead == At(q.listtail, q.listcount)
  }

  predicate InRing(q: Queue, loc: int)
    requires q.listtail < EC_MBXPOOLSIZE
  {
    0 <= loc < EC_MBXPOOLSIZE && Behind(q.listtail, loc) < q.listcount
  }

  /** The first free ticket, or the number of tickets if none is free. */
  function FreeTicket(tickets: seq<int>): (k: nat)
    ensures k <= |tickets|
    ensures k < |tickets| ==> tickets[k] < 0
    ensures forall j :: 0 <= j < k ==> tickets[j] >= 0
  {
    if tickets == [] then 0
    else if tickets[0] < 0 then 0
    else
      var k := FreeTicket(tickets[1..]);
      assert forall j :: 1 <= j < k + 1 ==> tickets[j] == tickets[1..][j - 1];
      k + 1
  }

  /** Adds a request; the result is the queue and the ticket, -1 if the ring is full. */
  function Add(q: Queue, slave: nat, mbx: nat): (r: (Queue, int))
    requires Shape(q)
    requires q.listcount < EC_MBXPOOLSIZE ==> FreeTicket(q.mbxticket) < EC_MBXPOOLSIZE
    ensures Shape(r.0)
  {
    if q.listcount < EC_MBXPOOLSIZE then
      var ticket: int := FreeTicket(q.mbxticket);
      var loc := q.listhead;
      (Queue(q.mbxticket[ticket := loc], q.mbxslave[loc := slave], q.mbx[loc := Some(mbx)],
             q.mbxremove[loc := false], q.mbxstate[loc := REQ],
             Next(loc), q.listtail, q.listcount + 1), ticket)
    else
      var none: int := -1;
      (q, none)
  }

  /** The ring position that a ticket in use stands for. */
  predicate InUse(q: Queue, ticket: int) {
    0 <= ticket < |q.mbxticket| && 0 <= q.mbxticket[ticket] < EC_MBXPOOLSIZE
  }

  function Release(q: Queue, ticket: int): (r: Queue)
    requires Shape(q) && InUse(q, ticket)
    ensures Shape(r)
  {
    q.(mbxremove := q.mbxremove[q.mbxticket[ticket] := true], mbxticket := q.mbxticket[ticket := -1])
  }

  /** Gives a ticket back once its request is done. */
  function Finish(q: Queue, ticket: int): (r: (Queue, bool))
    requires Shape(q) && InUse(q, ticket)
    ensures Shape(r.0)
  {
    if q.mbxstate[q.mbxticket[ticket]] == DONE then (Release(q, ticket), true) else (q, false)
  }

  /** Gives a ticket back whatever has become of its request. */
  function Expire(q: Queue, ticket: int): (r: (Queue, bool))
    requires Shape(q) && InUse(q, ticket)
    ensures Shape(r.0)
  {
    if q.mbxstate[q.mbxticket[ticket]] != NONE then (Release(q, ticket), true) else (q, false)
  }

  /** The ticket that stands for ring position `loc`, or the number of tickets. */
  function TicketOf(tickets: seq<int>, loc: int): (k: nat)
    ensures k <= |tickets|
    ensures k < |tickets| ==> tickets[k] == loc
    ensures forall j :: 0 <= j < k ==> tickets[j] != loc
  {
    if tickets == [] then 0
    else if tickets[0] == loc then 0
    else
      var k := TicketOf(tickets[1..], loc);
      assert forall j :: 1 <= j < k + 1 ==> tickets[j] == tickets[1..][j - 1];
      k + 1
  }

  /** Moves the request at the tail to the head, with its ticket. */
  function Rotate(q: Queue, loc: nat): (r: (Queue, bool))
    requires Shape(q)
    ensures Shape(r.0)
  {
    if q.listhead != q.listtail then
      var ticket := TicketOf(q.mbxticket, loc);
      if ticket < EC_MBXPOOLSIZE then
        var (head, tail) := (q.listhead, q.listtail);
        (Queue(q.mbxticket[ticket := head], q.mbxslave[head := q.mbxslave[tail]], q.mbx[head := q.mbx[tail]],
               q.mbxremove[head := q.mbxremove[tail]], q.mbxstate[head := q.mbxstate[tail]],
               Next(head), Next(tail), q.listcount), true)
      else (q, false)
    else (q, true)
  }

  /** Takes the entry at `loc` out of the ring; the tail and the count move by one. */
  function Drop(q: Queue, loc: nat): (r: (Queue, Option<nat>))
    requires Shape(q) && loc < EC_MBXPOOLSIZE && q.listcount > 0
    ensures Shape(r.0)
  {
    (q.(mbxstate := q.mbxstate[loc := NONE], mbxremove := q.mbxremove[loc := false],
        mbxslave := q.mbxslave[loc := 0], mbx := q.mbx[loc := None],
        listtail := Next(q.listtail), listcount := q.listcount - 1), q.mbx[loc])
  }

  /** What rotating changes, entry by entry: the entry at the tail is copied to the head, one ticket that
      stood for the given place stands for the head, and head and tail move on. A ring whose head and
      tail meet stays as it is, and so does one in which no ticket stands for the place. */
  lemma {:induction false} RotateMoves(q: Queue, loc: nat)
    requires Shape(q)
    ensures var (r, ok) := Rotate(q, loc);
            && (q.listhead == q.listtail ==> ok)
            && (q.listhead != q.listtail ==> (ok <==> (loc as int) in q.mbxticket))
            && (if !ok || q.listhead == q.listtail then r == q
                else
                  && (forall i :: 0 <= i < 32 ==>
                        var from := if i == q.listhead then q.listtail else i;
                        r.mbxslave[i] == q.mbxslave[from] && r.mbx[i] == q.mbx[from]
                        && r.mbxremove[i] == q.mbxremove[from] && r.mbxstate[i] == q.mbxstate[from])
                  && (exists k :: 0 <= k < 32 && q.mbxticket[k] == loc && r.mbxticket == q.mbxticket[k := q.listhead])
                  && r.listhead == (q.listhead + 1) % 32 && r.listtail == (q.listtail + 1) % 32
                  && r.listcount == q.listcount)
  {
    var k := TicketOf(q.mbxticket, loc);
    hide TicketOf;
    if (loc as int) in q.mbxticket {
      var j :| 0 <= j < |q.mbxticket| && q.mbxticket[j] == loc;
      assert k <= j;
    }
  }

  /** What dropping changes: the entry is blank, and the tail and the count move by one. */
  lemma {:induction false} DropBlanks(q: Queue, loc: nat)
    requires Shape(q) && loc < 32 && q.listcount > 0
    ensures var (r, buffer) := Drop(q, loc);
            && buffer == q.mbx[loc] && r.mbxticket == q.mbxticket && r.listhead == q.listhead
            && r.listtail == (q.listtail + 1) % 32 && r.listcount == q.listcount - 1
            && forall i :: 0 <= i < 32 ==>
                 if i == loc then
                   r.mbxslave[i] == 0 && r.mbx[i].None? && !r.mbxremove[i] && r.mbxstate[i] == NONE
                 else
                   r.mbxslave[i] == q.mbxslave[i] && r.mbx[i] == q.mbx[i]
                   && r.mbxremove[i] == q.mbxremove[i] && r.mbxstate[i] == q.mbxstate[i]
  {
  }

  class MbxQueue {
    const mbxticket: array<int>
    const mbxslave: array<nat>
    const mbx: array<Option<nat>>
    const mbxremove: array<bool>
    const mbxstate: array<SlotState>
    var listhead: nat
    var listtail: nat
    var listcount: nat

    ghost function Footprint(): set<object> {
      {this, mbxticket, mbxslave, mbx, mbxremove, mbxstate}
    }

    ghost predicate Valid()
      reads Footprint()
    {
      && mbxticket as object != mbxslave
      && Shape(Value())
    }

    ghost function Value(): Queue
      reads Footprint()
    {
      Queue(mbxticket[..], mbxslave[..], mbx[..], mbxremove[..], mbxstate[..], listhead, listtail, listcount)
    }

    constructor ()
      ensures Valid() && fresh(Footprint())
      ensures listcount == 0 && listhead == listtail == 0
      ensures forall k :: 0 <= k < EC_MBXPOOLSIZE ==> mbxticket[k] == -1
      ensures forall k :: 0 <= k < EC_MBXPOOLSIZE ==> !mbxremove[k]
    {
      listhead, listtail, listcount := 0, 0, 0;
      mbxticket := new int[EC_MBXPOOLSIZE](_ => -1);
      mbxslave := new nat[EC_MBXPOOLSIZE];
      mbx := new Option<nat>[EC_MBXPOOLSIZE](_ => None);
      mbxremove := new bool[EC_MBXPOOLSIZE](_ => false);
      mbxstate := new SlotState[EC_MBXPOOLSIZE](_ => NONE);
    }

    method SearchTicket() returns (ticket: nat)
      requires Valid()
      ensures ticket == FreeTicket(mbxticket[..])
    {
      ticket := 0;
      while ticket < EC_MBXPOOLSIZE && mbxticket[ticket] >= 0
        invariant 0 <= ticket <= FreeTicket(mbxticket[..])
      {
        ticket := ticket + 1;
      }
    }

    method SearchTicketOf(ticketloc: nat) returns (cnt: nat)
      requires Valid()
      ensures cnt == TicketOf(mbxticket[..], ticketloc)
    {
      cnt := 0;
      while cnt < EC_MBXPOOLSIZE && mbxticket[cnt] != ticketloc
        invariant 0 <= cnt <= TicketOf(mbxticket[..], ticketloc)
      {
        cnt := cnt + 1;
      }
    }

    method AddQueue(slave: nat, buffer: nat) returns (ticket: int)
      requires Valid()
      requires listcount < EC_MBXPOOLSIZE ==> FreeTicket(mbxticket[..]) < EC_MBXPOOLSIZE
      modifies Footprint()
      ensures Valid()
      ensures (Value(), ticket) == Add(old(Value()), slave, buffer)
      ensures ticket == -1 <==> old(listcount) >= EC_MBXPOOLSIZE
      ensures ticket >= 0 ==>
        && ticket < EC_MBXPOOLSIZE && old(mbxticket[..])[ticket] < 0
        && forall j :: 0 <= j < ticket ==> old(mbxticket[..])[j] >= 0
      ensures var loc := old(listhead);
              && mbxticket[..] == (if ticket >= 0 then old(mbxticket[..])[ticket := loc] else old(mbxticket[..]))
              && mbxslave[..] == (if ticket >= 0 then old(mbxslave[..])[loc := slave] else old(mbxslave[..]))
              && mbx[..] == (if ticket >= 0 then old(mbx[..])[loc := Some(buffer)] else old(mbx[..]))
              && mbxremove[..] == (if ticket >= 0 then old(mbxremove[..])[loc := false] else old(mbxremove[..]))
              && mbxstate[..] == (if ticket >= 0 then old(mbxstate[..])[loc := REQ] else old(mbxstate[..]))
      ensures listtail == old(listtail) && listcount == old(listcount) + (if ticket >= 0 then 1 else 0)
    {
      hide FreeTicket;
      ticket := -1;
      if listcount < EC_MBXPOOLSIZE {
        var ticketloc := listhead;
        ticket := SearchTicket();
        mbxticket[ticket] := ticketloc;
        mbxslave[ticketloc] := slave;
        mbx[ticketloc] := Some(buffer);
        listhead := listhead + 1;
        if listhead >= EC_MBXPOOLSIZE {
          listhead := 0;
        }
        mbxremove[ticketloc] := false;
        mbxstate[ticketloc] := REQ;
        listcount := listcount + 1;
      }
    }

    method DoneQueue(ticket: int) returns (retval: bool)
      requires Valid()
      requires 0 <= ticket < EC_MBXPOOLSIZE ==> InUse(Value(), ticket)
      modifies Footprint()
      ensures Valid()
      ensures if 0 <= ticket < EC_MBXPOOLSIZE then (Value(), retval) == Finish(old(Value()), ticket)
              else Value() == old(Value()) && !retval
      ensures 0 <= ticket < EC_MBXPOOLSIZE ==> (retval <==> old(mbxstate[mbxticket[ticket]]) == DONE)
      ensures retval ==>
        && mbxticket[..] == old(mbxticket[..])[ticket := -1]
        && mbxremove[..] == old(mbxremove[..])[old(mbxticket[ticket]) := true]
      ensures !retval ==> mbxticket[..] == old(mbxticket[..]) && mbxremove[..] == old(mbxremove[..])
      ensures mbxslave[..] == old(mbxslave[..]) && mbx[..] == old(mbx[..]) && mbxstate[..] == old(mbxstate[..])
      ensures listhead == old(listhead) && listtail == old(listtail) && listcount == old(listcount)
    {
      retval := false;
      if 0 <= ticket < EC_MBXPOOLSIZE {
        if mbxstate[mbxticket[ticket]] == DONE {
          mbxremove[mbxticket[ticket]] := true;
          mbxticket[ticket] := -1;
          retval := true;
        }
      }
    }

    method ExpireQueue(ticket: int) returns (retval: bool)
      requires Valid()
      requires 0 <= ticket < EC_MBXPOOLSIZE ==> InUse(Value(), ticket)
      modifies Footprint()
      ensures Valid()
      ensures if 0 <= ticket < EC_MBXPOOLSIZE then (Value(), retval) == Expire(old(Value()), ticket)
              else Value() == old(Value()) && !retval
      ensures 0 <= ticket < EC_MBXPOOLSIZE ==> (retval <==> old(mbxstate[mbxticket[ticket]]) != NONE)
      ensures retval ==>
        && mbxticket[..] == old(mbxticket[..])[ticket := -1]
        && mbxremove[..] == old(mbxremove[..])[old(mbxticket[ticket]) := true]
      ensures !retval ==> mbxticket[..] == old(mbxticket[..]) && mbxremove[..] == old(mbxremove[..])
      ensures mbxslave[..] == old(mbxslave[..]) && mbx[..] == old(mbx[..]) && mbxstate[..] == old(mbxstate[..])
      ensures listhead == old(listhead) && listtail == old(listtail) && listcount == old(listcount)
    {
      retval := false;
      if 0 <= ticket < EC_MBXPOOLSIZE {
        if mbxstate[mbxticket[ticket]] != NONE {
          mbxremove[mbxticket[ticket]] := true;
          mbxticket[ticket] := -1;
          retval := true;
        }
      }
    }

    method CopySlot(head: nat, tail: nat)
      requires Valid() && head < EC_MBXPOOLSIZE && tail < EC_MBXPOOLSIZE
      modifies mbxslave, mbx, mbxremove, mbxstate
      ensures Value() == old(Value()).(
                mbxremove := old(mbxremove[..])[head := old(mbxremove[tail])],
                mbxstate := old(mbxstate[..])[head := old(mbxstate[tail])],
                mbxslave := old(mbxslave[..])[head := old(mbxslave[tail])],
                mbx := old(mbx[..])[head := old(mbx[tail])])
    {
      mbxremove[head] := mbxremove[tail];
      mbxstate[head] := mbxstate[tail];
      mbxslave[head] := mbxslave[tail];
      mbx[head] := mbx[tail];
    }

    method RotateQueue(ticketloc: nat) returns (retval: bool)
      requires Valid()
      modifies Footprint()
      ensures Valid()
      ensures (Value(), retval) == Rotate(old(Value()), ticketloc)
    {
      hide TicketOf;
      retval := false;
      var head := listhead;
      var tail := listtail;
      if head != tail {
        var ticket := SearchTicketOf(ticketloc);
        if ticket < EC_MBXPOOLSIZE {
          mbxticket[ticket] := head;
          CopySlot(head, tail);
          listhead := listhead + 1;
          if listhead >= EC_MBXPOOLSIZE {
            listhead := 0;
          }
          listtail := listtail + 1;
          if listtail >= EC_MBXPOOLSIZE {
            listtail := 0;
          }
          retval := true;
        }
      } else {
        retval := true;
      }
    }

    method DropQueue(ticketloc: nat) returns (buffer: Option<nat>)
      requires Valid() && ticketloc < EC_MBXPOOLSIZE && listcount > 0
      modifies Footprint()
      ensures Valid()
      ensures (Value(), buffer) == Drop(old(Value()), ticketloc)
    {
      mbxstate[ticketloc] := NONE;
      mbxremove[ticketloc] := false;
      mbxslave[ticketloc] := 0;
      buffer := mbx[ticketloc];
      mbx[ticketloc] := None;
      listtail := listtail + 1;
      if listtail >= EC_MBXPOOLSIZE {
        listtail := 0;
      }
      listcount := listcount - 1;
    }
  }
}
