/** The pool of mailbox buffers: a ring with the indices of the free ones (ec_main.c). */
module MailboxPool {
  import opened EcTypes

  const EC_MBXPOOLSIZE: nat := 32

  function Next(i: nat): nat {
    if i + 1 >= EC_MBXPOOLSIZE then 0 else i + 1
  }

  /** The ring position `k` places behind position `tail`. */
  function At(tail: nat, k: nat): (loc: nat)
    requires tail < EC_MBXPOOLSIZE && k <= EC_MBXPOOLSIZE
    ensures loc < EC_MBXPOOLSIZE
  {
    if tail + k < EC_MBXPOOLSIZE then tail + k else tail + k - EC_MBXPOOLSIZE
  }

  /** How many places position `loc` is behind position `tail`. */
  function Behind(tail: nat, loc: nat): (k: nat)
    requires tail < EC_MBXPOOLSIZE && loc < EC_MBXPOOLSIZE
    ensures k < EC_MBXPOOLSIZE && At(tail, k) == loc
  {
    if loc >= tail then loc - tail else loc + EC_MBXPOOLSIZE - tail
  }

  class Pool {
    const mbxemptylist: array<nat>
    var listhead: nat
    var listtail: nat
    var listcount: nat

    ghost predicate Valid()
      reads this, mbxemptylist
    {
      && mbxemptylist.Length == EC_MBXPOOLSIZE
      && listhead < EC_MBXPOOLSIZE && listtail < EC_MBXPOOLSIZE && listcount <= EC_MBXPOOLSIZE
      && listhead == At(listtail, listcount)
    }

    /** The free buffers, in the order in which they will be handed out. */
    ghost function Free(): (s: seq<nat>)
      reads this, mbxemptylist
      requires Valid()
      ensures |s| == listcount
      ensures forall k :: 0 <= k < |s| ==> s[k] == mbxemptylist[At(listtail, k)]
    {
      seq(listcount, k requires 0 <= k < listcount && Valid() reads this, mbxemptylist =>
        mbxemptylist[At(listtail, k)])
    }

    constructor ()
      ensures Valid() && fresh(mbxemptylist)
      ensures Free() == seq(EC_MBXPOOLSIZE, i => i)
    {
      mbxemptylist := new nat[EC_MBXPOOLSIZE](i => i);
      listhead := 0;
      listtail := 0;
      listcount := EC_MBXPOOLSIZE;
    }

    /** Hands out the buffer that has been free for longest. */
    method GetMbx() returns (mbx: Option<nat>)
      requires Valid()
      modifies this
      ensures Valid()
      ensures if |old(Free())| == 0 then mbx == None && Free() == []
              else mbx == Some(old(Free())[0]) && Free() == old(Free())[1..]
    {
      mbx := None;
      if listcount > 0 {
        mbx := Some(mbxemptylist[listtail]);
        listtail := listtail + 1;
        if listtail >= EC_MBXPOOLSIZE {
          listtail := 0;
        }
        listcount := listcount - 1;
      }
    }

    /** Takes back a buffer; the result tells whether `item` is one. At most as many buffers
        are dropped as have been handed out. */
    method DropMbx(item: int) returns (ok: bool)
      requires Valid()
      requires 0 <= item < EC_MBXPOOLSIZE ==> listcount < EC_MBXPOOLSIZE
      modifies this, mbxemptylist
      ensures Valid()
      ensures ok == (0 <= item < EC_MBXPOOLSIZE)
      ensures Free() == if ok then old(Free()) + [item] else old(Free())
    {
      ok := false;
      if 0 <= item < EC_MBXPOOLSIZE {
        mbxemptylist[listhead] := item;
        listhead := listhead + 1;
        if listhead >= EC_MBXPOOLSIZE {
          listhead := 0;
        }
        listcount := listcount + 1;
        ok := true;
      }
    }
  }
}
