/**
 * The blocking echo loops: one task reads one byte at a time and writes
 * each frame straight back (no channel).  Unlike the interrupt-driven
 * reader, a delimiter always writes `buf[..idx]`, even when it is empty.
 */
module BlockingEcho {
  import opened Common
  import opened Framing
  import opened Accumulator

  /** Run the loop over the outcomes of a series of blocking reads.
      `written` lists the buffers handed to `blocking_write`, in order. */
  method EchoLoop(rs: seq<ReadResult>) returns (written: seq<seq<Byte>>, pending: seq<Byte>)
    ensures var r := Run(EmitEmpty, [], Received(rs));
            written == r.out && pending == r.pending
    ensures Flatten(written) + pending == StripZeros(Received(rs))
    ensures FramesBounded(EmitEmpty, written) && |pending| <= Capacity
    // the same stream as the interrupt-driven reader, empty writes aside
    ensures NonEmpty(written) == Run(SuppressEmpty, [], Received(rs)).out
  {
    var framer := new Framer(EmitEmpty);
    written := [];
    var i := 0;
    while i < |rs|
      invariant i <= |rs|
      invariant framer.Valid() && framer.policy == EmitEmpty && fresh(framer.buf)
      invariant var r := Run(EmitEmpty, [], Received(rs[..i]));
                written == r.out && framer.Pending() == r.pending
    {
      var ev := framer.Feed(rs[i]);
      if ev.Emit? {
        // `blocking_write(&buf[..idx])`
        written := written + [ev.data[..ev.len]];
      }
      ReadsSnoc(EmitEmpty, rs, i);
      i := i + 1;
    }
    assert rs[..i] == rs;
    pending := framer.buf[..framer.idx];
    RunStream(EmitEmpty, [], Received(rs));
    RunFramesBounded(EmitEmpty, [], Received(rs));
    PoliciesAgree([], Received(rs));
  }

  /** The number of delimiters in a byte string. */
  function ZeroCount(s: seq<Byte>): (n: nat)
    ensures n <= |s|
    decreases |s|
  {
    if s == [] then 0 else (if s[0] == 0 then 1 else 0) + ZeroCount(s[1..])
  }

  /** Every delimiter produces a write, even one that finds nothing buffered;
      overflow flushes come on top. */
  lemma {:induction false} EveryDelimiterWrites(pending: seq<Byte>, input: seq<Byte>)
    requires |pending| <= Capacity
    ensures |Run(EmitEmpty, pending, input).out| >= ZeroCount(input)
    decreases |input|
  {
    if input != [] {
      var s := Step(EmitEmpty, pending, input[0]);
      EveryDelimiterWrites(s.pending, input[1..]);
    }
  }

  /** A run of delimiters with nothing buffered writes one empty frame per
      delimiter here, and nothing at all in the interrupt-driven reader. */
  lemma {:induction false} DelimitersOnly(n: nat)
    ensures var zs := seq(n, _ => 0 as Byte);
            Run(EmitEmpty, [], zs).out == seq(n, _ => []) && Run(SuppressEmpty, [], zs).out == []
    decreases n
  {
    var zs := seq(n, _ => 0 as Byte);
    if n > 0 {
      DelimitersOnly(n - 1);
      assert zs[1..] == seq(n - 1, _ => 0 as Byte);
      assert Run(EmitEmpty, [], zs).out == [[]] + Run(EmitEmpty, [], zs[1..]).out;
    }
  }

  /** The echoed string of the heap-allocating variant: each byte becomes the
      character with the same code (`*b as char`). */
  function Render(bytes: seq<Byte>): (s: string)
    decreases |bytes|
  {
    if bytes == [] then "" else [bytes[0] as int as char] + Render(bytes[1..])
  }

  /** Reading the character codes back gives the bytes. */
  function Codes(s: string): (bytes: seq<Byte>)
    requires forall i :: 0 <= i < |s| ==> s[i] as int < 256
    decreases |s|
  {
    if s == [] then [] else [s[0] as int as Byte] + Codes(s[1..])
  }

  /** One character per byte, with the byte's value as its code. */
  lemma {:induction false} RenderCodes(bytes: seq<Byte>)
    ensures var s := Render(bytes);
            |s| == |bytes| && forall i :: 0 <= i < |s| ==> s[i] as int == bytes[i] as int
    decreases |bytes|
  {
    if bytes != [] {
      RenderCodes(bytes[1..]);
    }
  }

  lemma {:induction false} CodesRender(bytes: seq<Byte>)
    ensures RenderCodesInRange(bytes)
    ensures Codes(Render(bytes)) == bytes
    decreases |bytes|
  {
    RenderCodes(bytes);
    if bytes != [] {
      CodesRender(bytes[1..]);
    }
  }

  ghost predicate RenderCodesInRange(bytes: seq<Byte>)
  {
    forall i :: 0 <= i < |Render(bytes)| ==> Render(bytes)[i] as int < 256
  }
}
