/**
 * The framing policy of the receive loops, as a pure reference model.
 *
 * A pending frame is the committed prefix `buf[..idx]` of the 64-byte
 * receive buffer.  Byte 0 is the delimiter; any other byte is appended
 * while there is room; a byte arriving at a full buffer first flushes the
 * 64 bytes already held and then starts the next frame ("flush and carry").
 * The two variants differ only in what a delimiter does to an empty
 * pending frame.
 */
module Framing {
  import opened Common

  /** Empty-frame policy: the interrupt-driven reader suppresses empty
      frames, the two blocking echo loops write them. */
  datatype Policy = SuppressEmpty | EmitEmpty

  /** The frames handed on (oldest first) and the new pending frame. */
  datatype StepResult = StepResult(out: seq<seq<Byte>>, pending: seq<Byte>)

  /** What one received byte does. */
  function Step(policy: Policy, pending: seq<Byte>, b: Byte): (r: StepResult)
    requires |pending| <= Capacity
    ensures |r.pending| <= Capacity && |r.out| <= 1
  {
    if b == 0 then
      StepResult(if |pending| > 0 || policy == EmitEmpty then [pending] else [], [])
    else if |pending| < Capacity then
      StepResult([], pending + [b])
    else
      StepResult([pending], [b])
  }

  /** What a stream of received bytes does, one byte after the other. */
  function Run(policy: Policy, pending: seq<Byte>, input: seq<Byte>): (r: StepResult)
    requires |pending| <= Capacity
    ensures |r.pending| <= Capacity
    decreases |input|
  {
    if input == [] then StepResult([], pending)
    else
      var s := Step(policy, pending, input[0]);
      var t := Run(policy, s.pending, input[1..]);
      StepResult(s.out + t.out, t.pending)
  }

  /** Running two pieces of input one after the other is running their concatenation. */
  lemma {:induction false} RunAppend(policy: Policy, pending: seq<Byte>, xs: seq<Byte>, ys: seq<Byte>)
    requires |pending| <= Capacity
    ensures var r1 := Run(policy, pending, xs);
            var r2 := Run(policy, r1.pending, ys);
            Run(policy, pending, xs + ys) == StepResult(r1.out + r2.out, r2.pending)
    decreases |xs|
  {
    if xs == [] {
      assert xs + ys == ys;
    } else {
      assert (xs + ys)[0] == xs[0];
      assert (xs + ys)[1..] == xs[1..] + ys;
      var s := Step(policy, pending, xs[0]);
      RunAppend(policy, s.pending, xs[1..], ys);
    }
  }

  /** Feeding one more byte extends the run by one step. */
  lemma RunSnoc(policy: Policy, pending: seq<Byte>, xs: seq<Byte>, b: Byte)
    requires |pending| <= Capacity
    ensures var r := Run(policy, pending, xs);
            var s := Step(policy, r.pending, b);
            Run(policy, pending, xs + [b]) == StepResult(r.out + s.out, s.pending)
  {
    RunAppend(policy, pending, xs, [b]);
    var r := Run(policy, pending, xs);
    assert Run(policy, r.pending, [b]).out == Step(policy, r.pending, b).out + [];
  }

  /** A loop over read outcomes: the run over the first i + 1 reads is the
      run over the first i, continued with what read i delivered. */
  lemma ReadsSnoc(policy: Policy, rs: seq<ReadResult>, i: nat)
    requires i < |rs|
    ensures var r := Run(policy, [], Received(rs[..i]));
            var s := Run(policy, r.pending, Received([rs[i]]));
            Run(policy, [], Received(rs[..i + 1])) == StepResult(r.out + s.out, s.pending)
  {
    assert rs[..i + 1] == rs[..i] + [rs[i]];
    ReceivedAppend(rs[..i], [rs[i]]);
    RunAppend(policy, [], Received(rs[..i]), Received([rs[i]]));
  }

  /** One step loses and duplicates nothing. */
  lemma StepStream(policy: Policy, pending: seq<Byte>, b: Byte)
    requires |pending| <= Capacity
    ensures var s := Step(policy, pending, b);
            Flatten(s.out) + s.pending == pending + StripZeros([b])
  {
    var s := Step(policy, pending, b);
    assert StripZeros([b]) == (if b == 0 then [] else [b]) + StripZeros([]);
    if s.out != [] {
      assert Flatten(s.out) == s.out[0] + Flatten(s.out[1..]);
    }
  }

  /** No byte is lost or duplicated: the frames handed on, followed by what is
      still pending, are the old pending bytes followed by the input with its
      delimiters removed. */
  lemma {:induction false} RunStream(policy: Policy, pending: seq<Byte>, input: seq<Byte>)
    requires |pending| <= Capacity
    ensures var r := Run(policy, pending, input);
            Flatten(r.out) + r.pending == pending + StripZeros(input)
    decreases |input|
  {
    if input != [] {
      var s := Step(policy, pending, input[0]);
      var t := Run(policy, s.pending, input[1..]);
      RunStream(policy, s.pending, input[1..]);
      StepStream(policy, pending, input[0]);
      FlattenAppend(s.out, t.out);
      StripZerosFront(input);
      ComposeSplit(Flatten(s.out), s.pending, Flatten(t.out), t.pending,
                   pending, StripZeros([input[0]]), StripZeros(input[1..]));
    }
  }

  lemma {:induction false} StripZerosFront(input: seq<Byte>)
    requires input != []
    ensures StripZeros(input) == StripZeros([input[0]]) + StripZeros(input[1..])
  {
    var one := [input[0]];
    var h: seq<Byte> := if input[0] == 0 then [] else one;
    assert one[1..] == [];
    assert StripZeros(one) == h + StripZeros(one[1..]);
    assert StripZeros(one) == h;
  }

  /** Sequence bookkeeping for RunStream: two stream equations chain. */
  lemma ComposeSplit<T>(f1: seq<T>, p1: seq<T>, f2: seq<T>, p2: seq<T>, p0: seq<T>, z1: seq<T>, z2: seq<T>)
    requires f1 + p1 == p0 + z1 && f2 + p2 == p1 + z2
    ensures (f1 + f2) + p2 == p0 + (z1 + z2)
  {
    calc {
      (f1 + f2) + p2;
      f1 + (f2 + p2);
      f1 + (p1 + z2);
      (f1 + p1) + z2;
      (p0 + z1) + z2;
    }
  }

  /** The bound every frame respects: at most a buffer's worth of bytes, and
      never empty when empty frames are suppressed. */
  ghost predicate FramesBounded(policy: Policy, frames: seq<seq<Byte>>)
  {
    forall i :: 0 <= i < |frames| ==>
      |frames[i]| <= Capacity && (policy == SuppressEmpty ==> |frames[i]| > 0)
  }

  lemma {:induction false} RunFramesBounded(policy: Policy, pending: seq<Byte>, input: seq<Byte>)
    requires |pending| <= Capacity
    ensures FramesBounded(policy, Run(policy, pending, input).out)
    decreases |input|
  {
    if input != [] {
      var s := Step(policy, pending, input[0]);
      var t := Run(policy, s.pending, input[1..]);
      RunFramesBounded(policy, s.pending, input[1..]);
      assert FramesBounded(policy, s.out);
      assert Run(policy, pending, input).out == s.out + t.out;
    }
  }

  /** The input carries no delimiter. */
  predicate NoDelimiter(s: seq<Byte>)
  {
    forall i :: 0 <= i < |s| ==> s[i] != 0
  }

  /** Over a run without delimiters a frame is handed on exactly every
      `Capacity` bytes: every frame is full, and what is left pending is
      between 1 and `Capacity` bytes (once anything has been received), so the
      count of frames is determined by the total length. */
  lemma {:induction false} OverflowEveryCapacity(policy: Policy, pending: seq<Byte>, input: seq<Byte>)
    requires |pending| <= Capacity && NoDelimiter(input)
    ensures var r := Run(policy, pending, input);
            (forall i :: 0 <= i < |r.out| ==> |r.out[i]| == Capacity)
            && |r.pending| + Capacity * |r.out| == |pending| + |input|
            && (|pending| + |input| > 0 ==> |r.pending| >= 1)
    decreases |input|
  {
    if input != [] {
      var s := Step(policy, pending, input[0]);
      assert NoDelimiter(input[1..]) by {
        forall i | 0 <= i < |input[1..]| ensures input[1..][i] != 0 {
          assert input[1..][i] == input[i + 1];
        }
      }
      OverflowEveryCapacity(policy, s.pending, input[1..]);
    }
  }

  /** The frames of a stream with the empty ones removed. */
  function NonEmpty(frames: seq<seq<Byte>>): (r: seq<seq<Byte>>)
    ensures forall i :: 0 <= i < |r| ==> |r[i]| > 0
    ensures |r| <= |frames|
    decreases |frames|
  {
    if frames == [] then []
    else (if |frames[0]| > 0 then [frames[0]] else []) + NonEmpty(frames[1..])
  }

  lemma NonEmptyAppend(xs: seq<seq<Byte>>, ys: seq<seq<Byte>>)
    ensures NonEmpty(xs + ys) == NonEmpty(xs) + NonEmpty(ys)
    decreases |xs|
  {
    if xs == [] {
      assert xs + ys == ys;
    } else {
      assert (xs + ys)[1..] == xs[1..] + ys;
      NonEmptyAppend(xs[1..], ys);
    }
  }

  /** The two empty-frame policies differ only in the empty frames: on the
      same input they keep the same pending bytes, and the suppressing one
      hands on exactly the non-empty frames of the other, in the same order. */
  lemma {:induction false} PoliciesAgree(pending: seq<Byte>, input: seq<Byte>)
    requires |pending| <= Capacity
    ensures var keep := Run(EmitEmpty, pending, input);
            var drop := Run(SuppressEmpty, pending, input);
            drop.pending == keep.pending && drop.out == NonEmpty(keep.out)
    decreases |input|
  {
    if input != [] {
      var ks := Step(EmitEmpty, pending, input[0]);
      var ds := Step(SuppressEmpty, pending, input[0]);
      assert ds.pending == ks.pending;
      assert ds.out == NonEmpty(ks.out) by {
        if ks.out != [] {
          assert ks.out[1..] == [];
        }
      }
      PoliciesAgree(ks.pending, input[1..]);
      NonEmptyAppend(ks.out, Run(EmitEmpty, ks.pending, input[1..]).out);
    }
  }
}
