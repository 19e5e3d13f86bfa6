/**
 * A channel of capacity one (an embassy `Channel<_, T, 1>`), used by one
 * producer and one consumer in a sequential schedule: a send finds the slot
 * empty (the producer resumes only then) and a receive finds it full (the
 * consumer resumes only then).
 */
module Channel {
  import opened Common

  class Slot<T> {
    /** The single slot. */
    var item: Option<T>
    /** Every item ever sent, and every item ever received, in order. */
    ghost var Sent: seq<T>
    ghost var Delivered: seq<T>

    /** What was received, followed by what is still in the slot, is what was
        sent: nothing is lost, duplicated or reordered. */
    ghost predicate Valid()
      reads this
    {
      Sent == Delivered + (if item.Some? then [item.value] else [])
    }

    constructor ()
      ensures Valid() && item == None && Sent == [] && Delivered == []
    {
      item := None;
      Sent, Delivered := [], [];
    }

    method Send(x: T)
      requires Valid() && item.None?
      modifies this
      ensures Valid() && item == Some(x)
      ensures Sent == old(Sent) + [x] && Delivered == old(Delivered)
    {
      item := Some(x);
      Sent := Sent + [x];
    }

    method Receive() returns (x: T)
      requires Valid() && item.Some?
      modifies this
      ensures Valid() && item == None
      ensures x == old(item.value)
      ensures Delivered == old(Delivered) + [x] && Sent == old(Sent)
    {
      x := item.value;
      item := None;
      Delivered := Delivered + [x];
    }
  }

  /** At most one item is ever undelivered, and the consumer has seen exactly
      the oldest items sent. */
  lemma AtMostOneInFlight<T>(c: Slot<T>)
    requires c.Valid()
    ensures |c.Delivered| <= |c.Sent| <= |c.Delivered| + 1
    ensures c.Sent[..|c.Delivered|] == c.Delivered
  {
    assert c.Sent[..|c.Delivered|] == (c.Delivered + (if c.item.Some? then [c.item.value] else []))[..|c.Delivered|];
  }
}
