/**
 * The by-reference handoff of the DMA receivers: the 64-byte buffer sits
 * behind a mutex; the producer locks it, lets `read_until_idle` fill it,
 * releases it and only then sends the length `n` through a channel of
 * capacity one; the consumer receives `n`, locks the buffer, classifies
 * `buf[..n]` and releases it.  Here the two tasks run in a sequential
 * schedule: each sent length is processed before the producer locks again.
 */
module DmaShared {
  import opened Common
  import opened Channel
  import opened Command

  /** Who holds the buffer's mutex. */
  datatype Holder = Free | Producer | Consumer

  /** Outcome of one `read_until_idle`: the burst received, or an error. */
  datatype Burst = Bytes(bytes: seq<Byte>) | BurstError

  /** The buffer behind the mutex, `Mutex<_, [u8; 64]>`. */
  class LockedBuffer {
    const data: array<Byte>
    var holder: Holder

    ghost predicate Valid()
      reads this
    {
      data.Length == Capacity
    }

    constructor ()
      ensures Valid() && fresh(data) && holder == Free
      ensures forall k :: 0 <= k < data.Length ==> data[k] == 0
    {
      data := new Byte[Capacity](_ => 0);
      holder := Free;
    }

    /** `lock().await`, in a schedule where the mutex is free. */
    method Lock(who: Holder)
      requires who != Free && holder == Free
      modifies this
      ensures holder == who
    {
      holder := who;
    }

    /** `drop(buf)` by whichever task holds the guard. */
    method Unlock(who: Holder)
      requires who != Free && holder == who
      modifies this
      ensures holder == Free
    {
      holder := Free;
    }

    /** The bytes `read_until_idle` stores through the producer's guard. */
    method Fill(burst: seq<Byte>)
      requires Valid() && holder == Producer && |burst| <= Capacity
      modifies data
      ensures data[..] == burst + old(data[..])[|burst|..]
    {
      forall k | 0 <= k < |burst| {
        data[k] := burst[k];
      }
      assert data[..] == burst + old(data[..])[|burst|..];
    }

    /** `&buf[..n]` through the consumer's guard. */
    method View(n: nat) returns (s: seq<Byte>)
      requires Valid() && holder == Consumer && n <= Capacity
      ensures s == data[..n]
    {
      s := data[..n];
    }
  }

  /** `data_sender.send(n)`: the producer must have dropped its guard. */
  method Notify(shared: LockedBuffer, chan: Slot<nat>, n: nat)
    requires shared.holder != Producer
    requires chan.Valid() && chan.item.None?
    modifies chan
    ensures chan.Valid() && chan.item == Some(n)
    ensures chan.Sent == old(chan.Sent) + [n] && chan.Delivered == old(chan.Delivered)
  {
    chan.Send(n);
  }

  /** What the consumer does with a received length: nothing for 0, otherwise
      classify the first `n` bytes of the buffer. */
  function Process(n: nat, buf: seq<Byte>): (r: Option<Cmd>)
    requires n <= |buf|
  {
    if n == 0 then None else Some(Classify(buf[..n]))
  }

  /** One iteration of the producer (`main_task`). */
  method ProducerStep(shared: LockedBuffer, chan: Slot<nat>, r: Burst) returns (sent: Option<nat>)
    requires shared.Valid() && shared.holder == Free
    requires chan.Valid() && chan.item.None?
    requires r.Bytes? ==> |r.bytes| <= Capacity
    modifies shared, shared.data, chan
    ensures shared.holder == Free && chan.Valid()
    // only a non-empty burst is announced, by its length
    ensures sent == (if r.Bytes? && |r.bytes| > 0 then Some(|r.bytes|) else None)
    ensures chan.item == sent && chan.Delivered == old(chan.Delivered)
    ensures chan.Sent == old(chan.Sent) + (if sent.Some? then [sent.value] else [])
    ensures r.Bytes? ==> shared.data[..] == r.bytes + old(shared.data[..])[|r.bytes|..]
    // a failed read is modelled as storing nothing; no length is sent for it
    ensures r.BurstError? ==> shared.data[..] == old(shared.data[..])
  {
    shared.Lock(Producer);
    match r
    case BurstError =>
      // "UART read error": release the guard and go round again
      shared.Unlock(Producer);
      sent := None;
    case Bytes(bytes) =>
      shared.Fill(bytes);
      var n := |bytes|;
      shared.Unlock(Producer);
      if n > 0 {
        Notify(shared, chan, n);
        sent := Some(n);
      } else {
        sent := None;
      }
  }

  /** One iteration of the consumer (`processing_task`). */
  method ConsumerStep(shared: LockedBuffer, chan: Slot<nat>) returns (handled: Option<Cmd>)
    requires shared.Valid() && shared.holder == Free
    requires chan.Valid() && chan.item.Some? && chan.item.value <= Capacity
    modifies shared, chan
    ensures shared.holder == Free && chan.Valid() && chan.item == None
    ensures chan.Delivered == old(chan.Delivered) + [old(chan.item.value)] && chan.Sent == old(chan.Sent)
    ensures handled == Process(old(chan.item.value), shared.data[..])
  {
    var n := chan.Receive();
    shared.Lock(Consumer);
    if n > 0 {
      var payload := shared.View(n);
      handled := Some(Classify(payload));
    } else {
      handled := None;
    }
    shared.Unlock(Consumer);
  }

  /** The consumer iteration of the older variant, whose receive can fail:
      a failed receive skips the iteration before the lock is taken. */
  method FallibleConsumerStep(shared: LockedBuffer, chan: Slot<nat>, receiveFails: bool)
    returns (handled: Option<Cmd>)
    requires shared.Valid() && shared.holder == Free
    requires chan.Valid() && chan.item.Some? && chan.item.value <= Capacity
    modifies shared, chan
    ensures shared.holder == Free && chan.Valid()
    ensures receiveFails ==> handled == None && chan.item == old(chan.item)
                             && chan.Sent == old(chan.Sent) && chan.Delivered == old(chan.Delivered)
    ensures !receiveFails ==> chan.item == None && handled == Process(old(chan.item.value), shared.data[..])
                              && chan.Delivered == old(chan.Delivered) + [old(chan.item.value)]
                              && chan.Sent == old(chan.Sent)
  {
    if receiveFails {
      // "Failed to receive data length from channel": `continue`
      handled := None;
    } else {
      handled := ConsumerStep(shared, chan);
    }
  }

  /** The older consumer's iterations for one sent length: `fails` failed
      receives, each skipped, and then the one that gets the length. */
  method ConsumeAfterFailures(shared: LockedBuffer, chan: Slot<nat>, fails: nat)
    returns (handled: Option<Cmd>)
    requires shared.Valid() && shared.holder == Free
    requires chan.Valid() && chan.item.Some? && chan.item.value <= Capacity
    modifies shared, chan
    ensures shared.holder == Free && chan.Valid() && chan.item == None
    ensures handled == Process(old(chan.item.value), shared.data[..])
    ensures chan.Delivered == old(chan.Delivered) + [old(chan.item.value)]
    ensures chan.Sent == old(chan.Sent)
  {
    var tries := 0;
    while tries < fails
      invariant tries <= fails
      invariant shared.Valid() && shared.holder == Free
      invariant chan.Valid() && chan.item == old(chan.item)
      invariant chan.Sent == old(chan.Sent) && chan.Delivered == old(chan.Delivered)
    {
      var none := FallibleConsumerStep(shared, chan, true);
      tries := tries + 1;
    }
    handled := FallibleConsumerStep(shared, chan, false);
  }

  /** The commands the consumer should run for a series of bursts: one per
      non-empty burst, in order; errors and empty bursts produce none. */
  function Commands(bursts: seq<Burst>): (cs: seq<Cmd>)
    ensures |cs| <= |bursts|
    decreases |bursts|
  {
    if bursts == [] then []
    else
      (if bursts[0].Bytes? && |bursts[0].bytes| > 0 then [Classify(bursts[0].bytes)] else [])
        + Commands(bursts[1..])
  }

  lemma {:induction false} CommandsSnoc(bursts: seq<Burst>, r: Burst)
    ensures Commands(bursts + [r]) ==
            Commands(bursts) + (if r.Bytes? && |r.bytes| > 0 then [Classify(r.bytes)] else [])
    decreases |bursts|
  {
    if bursts == [] {
      assert [] + [r] == [r];
    } else {
      assert (bursts + [r])[1..] == bursts[1..] + [r];
      CommandsSnoc(bursts[1..], r);
    }
  }

  lemma CommandsPrefix(bursts: seq<Burst>, i: nat)
    requires i < |bursts|
    ensures var r := bursts[i];
            Commands(bursts[..i + 1]) ==
            Commands(bursts[..i]) + (if r.Bytes? && |r.bytes| > 0 then [Classify(r.bytes)] else [])
  {
    assert bursts[..i + 1] == bursts[..i] + [bursts[i]];
    CommandsSnoc(bursts[..i], bursts[i]);
  }

  /** No burst is announced unless it fits the buffer. */
  ghost predicate BurstsFit(bursts: seq<Burst>)
  {
    forall i :: 0 <= i < |bursts| ==> bursts[i].Bytes? ==> |bursts[i].bytes| <= Capacity
  }

  /** Run the producer and the consumer of the current variant over a series
      of `read_until_idle` outcomes; `handled` lists the commands run. */
  method DmaSession(bursts: seq<Burst>) returns (handled: seq<Cmd>)
    requires BurstsFit(bursts)
    ensures handled == Commands(bursts)
  {
    var shared := new LockedBuffer();
    var chan := new Slot<nat>();
    handled := [];
    var i := 0;
    while i < |bursts|
      invariant i <= |bursts|
      invariant shared.Valid() && shared.holder == Free && fresh(shared.data)
      invariant chan.Valid() && chan.item.None?
      invariant handled == Commands(bursts[..i])
    {
      var r := bursts[i];
      var sent := ProducerStep(shared, chan, r);
      if sent.Some? {
        var h := ConsumerStep(shared, chan);
        assert shared.data[..][..|r.bytes|] == r.bytes;
        handled := handled + [h.value];
      }
      CommandsPrefix(bursts, i);
      i := i + 1;
    }
    assert bursts[..i] == bursts;
  }

  /** The older variant over the same bursts, where the consumer's receive
      fails `failures[i]` times before it gets the `i`-th length: the failed
      receives change nothing, so the same commands run. */
  method FallibleDmaSession(bursts: seq<Burst>, failures: seq<nat>) returns (handled: seq<Cmd>)
    requires BurstsFit(bursts) && |failures| == |bursts|
    ensures handled == Commands(bursts)
  {
    var shared := new LockedBuffer();
    var chan := new Slot<nat>();
    handled := [];
    var i := 0;
    while i < |bursts|
      invariant i <= |bursts|
      invariant shared.Valid() && shared.holder == Free && fresh(shared.data)
      invariant chan.Valid() && chan.item.None?
      invariant handled == Commands(bursts[..i])
    {
      var r := bursts[i];
      var sent := ProducerStep(shared, chan, r);
      if sent.Some? {
        var h := ConsumeAfterFailures(shared, chan, failures[i]);
        assert shared.data[..][..|r.bytes|] == r.bytes;
        handled := handled + [h.value];
      }
      CommandsPrefix(bursts, i);
      i := i + 1;
    }
    assert bursts[..i] == bursts;
  }
}
