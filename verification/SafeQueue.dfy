/** The locked queue: every operation is one atomic step on the sequence of its elements. */
module SafeQueue {

  class Queue<T> {
    var items: seq<T>
    var aborted: bool

    constructor ()
      ensures items == [] && !aborted
    {
      items, aborted := [], false;
    }

    function Size(): nat
      reads this
    {
      |items|
    }

    method Push(val: T) returns (ok: bool)
      modifies `items
      ensures ok == !aborted
      ensures items == if ok then old(items) + [val] else old(items)
    {
      if aborted {
        return false;
      }
      items := items + [val];
      ok := true;
    }

    /** PopMove without waiting. */
    method Pop() returns (ok: bool, val: seq<T>)
      modifies `items
      ensures ok == (!aborted && old(items) != [])
      ensures val == if ok then [old(items)[0]] else []
      ensures items == if ok then old(items)[1..] else old(items)
    {
      if aborted || items == [] {
        return false, [];
      }
      val := [items[0]];
      items := items[1..];
      ok := true;
    }

    /** Drops the oldest elements until at most floors are left. */
    method Floors(floors: nat) returns (discard: nat)
      modifies `items
      ensures discard == if |old(items)| > floors then |old(items)| - floors else 0
      ensures items == old(items)[discard..]
    {
      discard := 0;
      while |items| > floors
        invariant discard <= |old(items)| && items == old(items)[discard..]
        invariant discard > 0 ==> |items| >= floors
      {
        items := items[1..];
        discard := discard + 1;
      }
    }

    /** Drops exactly discard elements; the queue must hold that many. */
    method Discard(discard: int) returns (i: int)
      requires discard <= |items|
      modifies `items
      ensures i == if discard > 0 then discard else 0
      ensures items == old(items)[i..]
    {
      i := 0;
      while i < discard
        invariant 0 <= i <= |old(items)| && (i > 0 ==> i <= discard) && items == old(items)[i..]
      {
        items := items[1..];
        i := i + 1;
      }
    }
  }
}
