/**
 * The by-reference DMA handoff as two tasks that interleave at their
 * suspension points.  Each action below is one uninterrupted stretch of a
 * task between two `.await`s; a schedule is any sequence of enabled actions.
 *
 * As written, the producer locks the buffer again and refills it as soon as
 * its send of the previous length completes, so a consumer that has taken
 * the length but not yet the lock later reads bytes of a newer burst.  With
 * an acknowledgement from the consumer (the producer waits for it before
 * locking again) every length is read back with exactly its own burst.
 */
module DmaRace {
  import opened Common
  import opened DmaShared
  import Scenarios

  /** The protocol as written, or with the consumer's acknowledgement. */
  datatype Variant = AsWritten | WithAck

  /** Where the producer is: at the top of its loop, holding the lock before
      the read, holding it with a burst read, or released and about to send. */
  datatype ProducerAt = PTop | PLocked | PFilled(burst: seq<Byte>) | PReleased(burst: seq<Byte>)

  /** Where the consumer is: waiting to receive, holding a length before the
      lock, or holding the lock with a length. */
  datatype ConsumerAt = CTop | CGot(n: nat) | CLocked(n: nat)

  /** The whole system, with two histories: the bursts whose lengths were
      sent, and the bytes the consumer read for each length it processed. */
  datatype State = State(
    buf: seq<Byte>, holder: Holder, slot: Option<nat>,
    p: ProducerAt, c: ConsumerAt, ack: bool,
    announced: seq<seq<Byte>>, seen: seq<seq<Byte>>)

  datatype Action =
    | ProducerLock | ProducerRead(burst: seq<Byte>) | ProducerReadError
    | ProducerRelease | ProducerSend
    | ConsumerReceive | ConsumerLock | ConsumerProcess

  function Init(): State
  {
    State(seq(Capacity, _ => 0), Free, None, PTop, CTop, true, [], [])
  }

  /** The state after one action, or None when the action cannot run now. */
  function Apply(v: Variant, s: State, a: Action): (t: Option<State>)
  {
    match a
    case ProducerLock =>
      // `rx_buf_mutex.lock().await`; with the acknowledgement, only once the
      // consumer has finished with the previous length
      if s.p == PTop && s.holder == Free && (v == AsWritten || s.ack)
      then Some(s.(holder := Producer, p := PLocked, ack := false)) else None
    case ProducerRead(burst) =>
      // `read_until_idle(&mut *buf)` returns `Ok(n)`
      if s.p == PLocked && |burst| <= Capacity && |s.buf| == Capacity
      then Some(s.(buf := burst + s.buf[|burst|..], p := PFilled(burst))) else None
    case ProducerReadError =>
      // `Err(e)`: `drop(buf); continue;`
      if s.p == PLocked then Some(s.(holder := Free, p := PTop, ack := true)) else None
    case ProducerRelease =>
      // `drop(buf)`; an empty burst goes straight back to the top
      if s.p.PFilled? then
        if |s.p.burst| > 0 then Some(s.(holder := Free, p := PReleased(s.p.burst)))
        else Some(s.(holder := Free, p := PTop, ack := true))
      else None
    case ProducerSend =>
      // `data_sender.send(n).await` completes once the slot is empty
      if s.p.PReleased? && s.slot.None?
      then Some(s.(slot := Some(|s.p.burst|), p := PTop, announced := s.announced + [s.p.burst]))
      else None
    case ConsumerReceive =>
      // `data_receiver.receive().await`
      if s.c == CTop && s.slot.Some? then Some(s.(slot := None, c := CGot(s.slot.value))) else None
    case ConsumerLock =>
      if s.c.CGot? && s.holder == Free then Some(s.(holder := Consumer, c := CLocked(s.c.n))) else None
    case ConsumerProcess =>
      // read `&buf[..n]`, classify it, `drop(buf)`, acknowledge
      if s.c.CLocked? && s.c.n <= |s.buf|
      then Some(s.(seen := s.seen + [s.buf[..s.c.n]], holder := Free, c := CTop, ack := true))
      else None
  }

  /** The state after a schedule, or None when some action could not run. */
  function Exec(v: Variant, s: State, acts: seq<Action>): Option<State>
    decreases |acts|
  {
    if acts == [] then Some(s)
    else match Apply(v, s, acts[0])
      case None => None
      case Some(t) => Exec(v, t, acts[1..])
  }

  /** The consumer read back, for every length it processed, exactly the
      burst that length was sent for, in order. */
  ghost predicate ReadsWhatWasAnnounced(s: State)
  {
    |s.seen| <= |s.announced| && s.seen == s.announced[..|s.seen|]
  }

  const Hello: seq<Byte> := Scenarios.HelloBytes
  const Hi: seq<Byte> := [0x68, 0x69]
  const World: seq<Byte> := Scenarios.WorldBytes

  /** The schedule of a cooperative executor when "hello", "hi" and "world"
      arrive in three bursts: the consumer takes the length 5 while the
      producer waits in its second read, and gets the lock only when the
      producer blocks on its third send.  Written in twos for the proofs. */
  const StaleSchedule: seq<Action> :=
    [ProducerLock, ProducerRead(Hello)] + [ProducerRelease, ProducerSend]
    + [ProducerLock, ConsumerReceive] + [ProducerRead(Hi), ProducerRelease]
    + [ProducerSend, ProducerLock] + [ProducerRead(World), ProducerRelease]
    + [ConsumerLock, ConsumerProcess]

  /** Two actions in a row. */
  lemma ExecPair(v: Variant, s: State, a: Action, b: Action)
    ensures Exec(v, s, [a, b])
            == (match Apply(v, s, a) case None => None case Some(t) => Apply(v, t, b))
  {
    assert [a, b][1..] == [b] && [b][1..] == [];
    match Apply(v, s, a)
    case None =>
    case Some(t) =>
      match Apply(v, t, b)
      case None =>
      case Some(u) => assert Exec(v, u, []) == Some(u);
  }

  /** A schedule that runs to `t`, followed by more actions. */
  lemma {:induction false} ExecThen(v: Variant, s: State, xs: seq<Action>, ys: seq<Action>, t: State)
    requires Exec(v, s, xs) == Some(t)
    ensures Exec(v, s, xs + ys) == Exec(v, t, ys)
    decreases |xs|
  {
    if xs == [] {
      assert xs + ys == ys;
    } else {
      assert (xs + ys)[0] == xs[0] && (xs + ys)[1..] == xs[1..] + ys;
      ExecThen(v, Apply(v, s, xs[0]).value, xs[1..], ys, t);
    }
  }

  /** The producer sends the length of "hello" and takes the lock again; the
      consumer takes the length. */
  lemma FirstBurst() returns (t: State)
    ensures Exec(AsWritten, Init(),
                 [ProducerLock, ProducerRead(Hello)] + [ProducerRelease, ProducerSend]
                 + [ProducerLock, ConsumerReceive]) == Some(t)
    ensures t.announced == [Hello] && t.seen == [] && t.c == CGot(5)
    ensures t.p == PLocked && t.slot.None? && t.holder == Producer && |t.buf| == Capacity
  {
    var v, s0 := AsWritten, Init();
    var s2 := Apply(v, Apply(v, s0, ProducerLock).value, ProducerRead(Hello)).value;
    var s4 := Apply(v, Apply(v, s2, ProducerRelease).value, ProducerSend).value;
    t := Apply(v, Apply(v, s4, ProducerLock).value, ConsumerReceive).value;
    ExecPair(v, s0, ProducerLock, ProducerRead(Hello));
    ExecPair(v, s2, ProducerRelease, ProducerSend);
    ExecPair(v, s4, ProducerLock, ConsumerReceive);
    ExecThen(v, s0, [ProducerLock, ProducerRead(Hello)], [ProducerRelease, ProducerSend], s2);
    ExecThen(v, s0, [ProducerLock, ProducerRead(Hello)] + [ProducerRelease, ProducerSend],
             [ProducerLock, ConsumerReceive], s4);
  }

  /** The producer reads and sends "hi", then reads "world" and releases. */
  lemma LaterBursts(s: State) returns (t: State)
    requires s.p == PLocked && s.slot.None? && s.holder == Producer && |s.buf| == Capacity
    ensures Exec(AsWritten, s,
                 [ProducerRead(Hi), ProducerRelease] + [ProducerSend, ProducerLock]
                 + [ProducerRead(World), ProducerRelease]) == Some(t)
    ensures t.announced == s.announced + [Hi] && t.seen == s.seen && t.c == s.c
    ensures t.holder == Free && |t.buf| == Capacity && t.buf[..5] == World
  {
    var v := AsWritten;
    var s2 := Apply(v, Apply(v, s, ProducerRead(Hi)).value, ProducerRelease).value;
    var s4 := Apply(v, Apply(v, s2, ProducerSend).value, ProducerLock).value;
    t := Apply(v, Apply(v, s4, ProducerRead(World)).value, ProducerRelease).value;
    assert t.buf[..5] == World;
    ExecPair(v, s, ProducerRead(Hi), ProducerRelease);
    ExecPair(v, s2, ProducerSend, ProducerLock);
    ExecPair(v, s4, ProducerRead(World), ProducerRelease);
    ExecThen(v, s, [ProducerRead(Hi), ProducerRelease], [ProducerSend, ProducerLock], s2);
    ExecThen(v, s, [ProducerRead(Hi), ProducerRelease] + [ProducerSend, ProducerLock],
             [ProducerRead(World), ProducerRelease], s4);
  }

  /** As written, that schedule runs, and the consumer reads "world" for the
      length of "hello": it runs handler b for a frame that asked for a. */
  lemma StaleReadAsWritten()
    ensures var t := Exec(AsWritten, Init(), StaleSchedule);
            t.Some? && t.value.announced == [Hello, Hi] && t.value.seen == [World]
            && !ReadsWhatWasAnnounced(t.value)
    ensures Command.Classify(Hello) == Command.A && Command.Classify(World) == Command.B
  {
    var v := AsWritten;
    var first := [ProducerLock, ProducerRead(Hello)] + [ProducerRelease, ProducerSend]
                 + [ProducerLock, ConsumerReceive];
    var later := [ProducerRead(Hi), ProducerRelease] + [ProducerSend, ProducerLock]
                 + [ProducerRead(World), ProducerRelease];
    var last := [ConsumerLock, ConsumerProcess];
    var s6 := FirstBurst();
    var s12 := LaterBursts(s6);
    var s14 := Apply(v, Apply(v, s12, ConsumerLock).value, ConsumerProcess).value;
    assert s14.seen == [World];
    ExecPair(v, s12, ConsumerLock, ConsumerProcess);
    ExecAppendParts(v, first, later, last);
    ExecThen(v, Init(), first, later, s6);
    ExecThen(v, Init(), first + later, last, s12);
    assert Hello != World;
    Scenarios.HelloIsA();
    Scenarios.WorldIsB();
  }

  /** The schedule is its three parts, one after the other. */
  lemma ExecAppendParts(v: Variant, first: seq<Action>, later: seq<Action>, last: seq<Action>)
    requires first == [ProducerLock, ProducerRead(Hello)] + [ProducerRelease, ProducerSend]
                      + [ProducerLock, ConsumerReceive]
    requires later == [ProducerRead(Hi), ProducerRelease] + [ProducerSend, ProducerLock]
                      + [ProducerRead(World), ProducerRelease]
    requires last == [ConsumerLock, ConsumerProcess]
    ensures StaleSchedule == first + later + last
  {
  }

  /** With the acknowledgement, the producer cannot even take the lock in the
      fifth step of that schedule. */
  lemma StaleScheduleBlockedWithAck()
    ensures Exec(WithAck, Init(), StaleSchedule) == None
  {
    var v, s0 := WithAck, Init();
    var s2 := Apply(v, Apply(v, s0, ProducerLock).value, ProducerRead(Hello)).value;
    var s4 := Apply(v, Apply(v, s2, ProducerRelease).value, ProducerSend).value;
    ExecPair(v, s0, ProducerLock, ProducerRead(Hello));
    ExecPair(v, s2, ProducerRelease, ProducerSend);
    ExecThen(v, s0, [ProducerLock, ProducerRead(Hello)], [ProducerRelease, ProducerSend], s2);
    var rest := [ProducerLock, ConsumerReceive] + [ProducerRead(Hi), ProducerRelease]
                + [ProducerSend, ProducerLock] + [ProducerRead(World), ProducerRelease]
                + [ConsumerLock, ConsumerProcess];
    assert Apply(v, s4, ProducerLock) == None;
    assert rest[0] == ProducerLock;
    assert Exec(v, s4, rest) == None;
    ExecThen(v, s0, [ProducerLock, ProducerRead(Hello)] + [ProducerRelease, ProducerSend], rest, s4);
    assert StaleSchedule == [ProducerLock, ProducerRead(Hello)] + [ProducerRelease, ProducerSend] + rest;
  }

  /** The invariant of the protocol with the acknowledgement: the buffer is
      touched by one task at a time, and between a send and the consumer's
      release it holds exactly the last announced burst. */
  ghost predicate AckInvariant(s: State)
  {
    |s.buf| == Capacity
    && ReadsWhatWasAnnounced(s)
    && (forall k :: 0 <= k < |s.announced| ==> 0 < |s.announced[k]| <= Capacity)
    && (s.ack ==>
          s.p == PTop && s.slot.None? && s.c == CTop && s.holder == Free
          && |s.seen| == |s.announced|)
    && (s.p == PLocked || s.p.PFilled? ==>
          !s.ack && s.holder == Producer && s.slot.None? && s.c == CTop
          && |s.seen| == |s.announced|)
    && (s.p.PFilled? ==> |s.p.burst| <= Capacity && s.buf[..|s.p.burst|] == s.p.burst)
    && (s.p.PReleased? ==>
          !s.ack && s.holder == Free && s.slot.None? && s.c == CTop
          && |s.seen| == |s.announced|
          && 0 < |s.p.burst| <= Capacity && s.buf[..|s.p.burst|] == s.p.burst)
    && (s.p == PTop && !s.ack ==>
          |s.announced| == |s.seen| + 1 && InFlight(s))
  }

  /** The last announced burst is still in the buffer and its length is in
      the slot, or taken by the consumer, or being read under its lock. */
  ghost predicate InFlight(s: State)
    requires |s.announced| > 0
  {
    var last := s.announced[|s.announced| - 1];
    |last| <= |s.buf| && s.buf[..|last|] == last
    && ((s.slot == Some(|last|) && s.c == CTop && s.holder == Free)
        || (s.slot.None? && s.c == CGot(|last|) && s.holder == Free)
        || (s.slot.None? && s.c == CLocked(|last|) && s.holder == Consumer))
  }

  lemma InitInvariant()
    ensures AckInvariant(Init())
  {
  }

  lemma AckStep(s: State, a: Action)
    requires AckInvariant(s) && Apply(WithAck, s, a).Some?
    ensures AckInvariant(Apply(WithAck, s, a).value)
  {
    var t := Apply(WithAck, s, a).value;
    match a
    case ProducerRead(burst) =>
      assert t.buf[..|burst|] == burst;
    case ProducerSend =>
      var b := s.p.burst;
      assert t.announced[|t.announced| - 1] == b;
      assert t.announced[..|t.seen|] == s.announced[..|s.seen|];
    case ConsumerProcess =>
      var last := s.announced[|s.announced| - 1];
      assert s.c.n == |last|;
      assert t.seen == s.seen + [last];
      assert s.announced == s.announced[..|s.seen|] + [last];
    case _ =>
  }

  lemma {:induction false} AckExec(s: State, acts: seq<Action>)
    requires AckInvariant(s) && Exec(WithAck, s, acts).Some?
    ensures AckInvariant(Exec(WithAck, s, acts).value)
    decreases |acts|
  {
    if acts != [] {
      AckStep(s, acts[0]);
      AckExec(Apply(WithAck, s, acts[0]).value, acts[1..]);
    }
  }

  /** With the acknowledgement, under every schedule, the consumer reads for
      each length exactly the burst it was sent for, in order, and never reads
      a burst twice or skips one it has processed the successor of. */
  lemma AckedProtocolReadsWhatWasAnnounced(acts: seq<Action>)
    requires Exec(WithAck, Init(), acts).Some?
    ensures ReadsWhatWasAnnounced(Exec(WithAck, Init(), acts).value)
  {
    InitInvariant();
    AckExec(Init(), acts);
  }
}
