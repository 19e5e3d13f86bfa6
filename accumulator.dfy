/**
 * The frame accumulator as the receive loops run it: a 64-byte array
 * updated in place and a write cursor `idx`, both owned by the loop.
 */
module Accumulator {
  import opened Common
  import opened Framing

  /** What pushing one byte hands on: nothing, or a copy of the whole array
      together with its valid length (the `(buf, idx)` pair the loops send
      or write from). */
  datatype Event = NoFrame | Emit(data: seq<Byte>, len: nat)

  /** The frame an event carries, as a list of zero or one frames. */
  function Frames(ev: Event): (r: seq<seq<Byte>>)
    ensures |r| <= 1
  {
    if ev.Emit? && ev.len <= |ev.data| then [ev.data[..ev.len]] else []
  }

  class Framer {
    /** Which empty-frame rule this copy of the loop follows. */
    const policy: Policy
    /** The receive buffer `buf`. */
    const buf: array<Byte>
    /** The write cursor `idx`. */
    var idx: nat

    ghost predicate Valid()
      reads this
    {
      buf.Length == Capacity && idx <= Capacity
    }

    /** The committed bytes `buf[..idx]`, still waiting for their frame to end. */
    ghost function Pending(): (p: seq<Byte>)
      reads this, buf
      requires Valid()
      ensures |p| == idx
    {
      buf[..idx]
    }

    /** `let mut buf = [0u8; 64]; let mut idx = 0;` */
    constructor (policy: Policy)
      ensures Valid() && fresh(buf) && this.policy == policy
      ensures idx == 0 && Pending() == []
      ensures forall k :: 0 <= k < buf.Length ==> buf[k] == 0
    {
      this.policy := policy;
      buf := new Byte[Capacity](_ => 0);
      idx := 0;
    }

    /** Handle one received byte. */
    method Push(b: Byte) returns (ev: Event)
      requires Valid()
      modifies this, buf
      ensures Valid()
      // in terms of the reference model
      ensures var r := Step(policy, old(Pending()), b);
              Frames(ev) == r.out && Pending() == r.pending
      // an emitted event copies the array as it was before this byte
      ensures ev.Emit? ==> ev.data == old(buf[..]) && ev.len == old(idx)
      // delimiter: nothing is stored, the cursor resets, and a frame is
      // handed on unless it is empty and empty frames are suppressed
      ensures b == 0 ==> buf[..] == old(buf[..]) && idx == 0
                         && (ev.Emit? <==> old(idx) > 0 || policy == EmitEmpty)
      // room left: store at the cursor, touch no other cell, hand on nothing
      ensures b != 0 && old(idx) < Capacity ==>
                ev == NoFrame && idx == old(idx) + 1 && buf[..] == old(buf[..])[old(idx) := b]
      // full: hand on all 64 bytes, then carry the byte into cell 0
      ensures b != 0 && old(idx) == Capacity ==>
                ev == Emit(old(buf[..]), Capacity) && idx == 1 && buf[..] == old(buf[..])[0 := b]
    {
      if b == 0 {
        if idx > 0 || policy == EmitEmpty {
          ev := Emit(buf[..], idx);
        } else {
          ev := NoFrame;
        }
        idx := 0;
      } else if idx < buf.Length {
        ev := NoFrame;
        buf[idx] := b;
        idx := idx + 1;
        assert buf[..idx] == old(buf[..idx]) + [b];
      } else {
        ev := Emit(buf[..], idx);
        buf[0] := b;
        idx := 1;
        assert buf[..idx] == [b];
      }
    }

    /** Handle the outcome of one read: a failed read is logged and retried
        after a back-off, leaving the buffer and the cursor as they were. */
    method Feed(r: ReadResult) returns (ev: Event)
      requires Valid()
      modifies this, buf
      ensures Valid()
      ensures var s := Run(policy, old(Pending()), Received([r]));
              Frames(ev) == s.out && Pending() == s.pending
      ensures ev.Emit? ==> |ev.data| == Capacity && ev.len <= Capacity
      ensures r.ReadError? ==> ev == NoFrame && idx == old(idx) && buf[..] == old(buf[..])
    {
      assert Received([r]) == (if r.Got? then [r.b] else []) + Received([]);
      if r.Got? {
        ev := Push(r.b);
        assert Run(policy, old(Pending()), [r.b]).out == Step(policy, old(Pending()), r.b).out + [];
      } else {
        ev := NoFrame;
      }
    }
  }
}
