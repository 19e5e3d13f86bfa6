/**
 * The interrupt-driven echo: a reader task frames single-byte reads and
 * sends each frame by value, as `([u8; 64], usize)`, through a channel of
 * capacity one; a writer task receives each message and writes
 * `buf[..len]` back out.  The two tasks are run in the sequential schedule
 * the capacity-one channel forces: after each send the writer drains the
 * slot before the reader reads again.
 */
module InterruptEcho {
  import opened Common
  import opened Framing
  import opened Accumulator
  import opened Channel

  /** The channel element: a copy of the whole buffer and its valid length. */
  datatype Message = Message(data: seq<Byte>, len: nat)

  /** Every message sent carries a full buffer copy and a length within it. */
  predicate AllWellSized(ms: seq<Message>)
  {
    forall k :: 0 <= k < |ms| ==> |ms[k].data| == Capacity && ms[k].len <= Capacity
  }

  /** What the writer writes for each message it receives, in order. */
  ghost function Payloads(ms: seq<Message>): (w: seq<seq<Byte>>)
    requires AllWellSized(ms)
    ensures |w| == |ms|
    ensures forall k :: 0 <= k < |ms| ==> w[k] == ms[k].data[..ms[k].len]
    decreases |ms|
  {
    if ms == [] then [] else [ms[0].data[..ms[0].len]] + Payloads(ms[1..])
  }

  lemma PayloadsSnoc(ms: seq<Message>, m: Message)
    requires AllWellSized(ms)
    requires |m.data| == Capacity && m.len <= Capacity
    ensures AllWellSized(ms + [m])
    ensures Payloads(ms + [m]) == Payloads(ms) + [m.data[..m.len]]
  {
    assert AllWellSized(ms + [m]) by {
      forall k | 0 <= k < |ms + [m]|
        ensures |(ms + [m])[k].data| == Capacity && (ms + [m])[k].len <= Capacity
      {
        if k < |ms| { assert (ms + [m])[k] == ms[k]; }
      }
    }
    var w := Payloads(ms + [m]);
    assert w == Payloads(ms) + [m.data[..m.len]] by {
      forall k | 0 <= k < |w| ensures w[k] == (Payloads(ms) + [m.data[..m.len]])[k] {
        if k < |ms| { assert (ms + [m])[k] == ms[k]; }
      }
    }
  }

  /** Run the reader and the writer over the outcomes of a series of reads.
      `written` lists the buffers handed to `tx.write`, `pending` is the
      reader's `buf[..idx]` at the end. */
  method EchoSession(rs: seq<ReadResult>) returns (written: seq<seq<Byte>>, pending: seq<Byte>)
    ensures var r := Run(SuppressEmpty, [], Received(rs));
            written == r.out && pending == r.pending
    ensures Flatten(written) + pending == StripZeros(Received(rs))
    ensures FramesBounded(SuppressEmpty, written) && |pending| <= Capacity
  {
    var framer := new Framer(SuppressEmpty);
    var channel := new Slot<Message>();
    written := [];
    var i := 0;
    while i < |rs|
      invariant i <= |rs|
      invariant framer.Valid() && framer.policy == SuppressEmpty && fresh(framer.buf)
      invariant channel.Valid() && channel.item.None?
      invariant AllWellSized(channel.Delivered)
      invariant written == Payloads(channel.Delivered)
      invariant var r := Run(SuppressEmpty, [], Received(rs[..i]));
                written == r.out && framer.Pending() == r.pending
    {
      ghost var delivered := channel.Delivered;
      var ev := framer.Feed(rs[i]);
      if ev.Emit? {
        // reader: `sender.send((buf, idx))`
        channel.Send(Message(ev.data, ev.len));
        // writer: `receiver.receive()`, then `tx.write(&buf[..len])`
        var m := channel.Receive();
        written := written + [m.data[..m.len]];
        PayloadsSnoc(delivered, m);
      }
      ReadsSnoc(SuppressEmpty, rs, i);
      i := i + 1;
    }
    assert rs[..i] == rs;
    pending := framer.buf[..framer.idx];
    RunStream(SuppressEmpty, [], Received(rs));
    RunFramesBounded(SuppressEmpty, [], Received(rs));
  }
}
