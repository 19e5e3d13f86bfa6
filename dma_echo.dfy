/**
 * The DMA echo task: each iteration reads one burst with `read_until_idle`
 * into a fresh zeroed 64-byte buffer and, when the burst is non-empty and
 * valid UTF-8, writes "Echo: ", the burst and "\r\n", in that order.
 */
module DmaEcho {
  import opened Common
  import opened Utf8

  /** "Echo: " */
  const EchoPrefix: seq<Byte> := [0x45, 0x63, 0x68, 0x6F, 0x3A, 0x20]
  /** "\r\n" */
  const LineEnd: seq<Byte> := [0x0D, 0x0A]

  /** The writes one burst produces, in order. */
  function Writes(burst: seq<Byte>): (w: seq<seq<Byte>>)
  {
    if |burst| > 0 && WellFormed(burst) then [EchoPrefix, burst, LineEnd] else []
  }

  /** The writes a series of bursts produces. */
  function AllWrites(bursts: seq<seq<Byte>>): (w: seq<seq<Byte>>)
    decreases |bursts|
  {
    if bursts == [] then [] else Writes(bursts[0]) + AllWrites(bursts[1..])
  }

  /** The reply to one burst is `"Echo: " ++ burst ++ "\r\n"` when the burst is
      non-empty valid UTF-8, and nothing otherwise; it is 8 bytes longer than
      the burst, is itself valid UTF-8, and gives the burst back when its
      prefix and line end are cut off. */
  lemma ReplyShape(burst: seq<Byte>)
    ensures var reply := Flatten(Writes(burst));
            (|burst| == 0 || !WellFormed(burst) <==> reply == [])
            && (|burst| > 0 && WellFormed(burst) ==>
                  reply == EchoPrefix + burst + LineEnd
                  && |reply| == |burst| + 8
                  && reply[6..|reply| - 2] == burst
                  && WellFormed(reply))
  {
    if |burst| > 0 && WellFormed(burst) {
      var reply := Flatten(Writes(burst));
      assert Flatten([LineEnd]) == LineEnd + Flatten([]);
      assert Flatten([burst, LineEnd]) == burst + Flatten([LineEnd]);
      assert reply == EchoPrefix + (burst + LineEnd);
      assert reply[6..|reply| - 2] == burst;
      EchoWellFormed(burst);
      assert reply == EchoPrefix + burst + LineEnd;
    }
  }

  lemma EchoWellFormed(burst: seq<Byte>)
    requires WellFormed(burst)
    ensures WellFormed(EchoPrefix + burst + LineEnd)
  {
    AsciiWellFormed(EchoPrefix);
    AsciiWellFormed(LineEnd);
    WellFormedAppend(EchoPrefix, burst);
    WellFormedAppend(EchoPrefix + burst, LineEnd);
  }

  /** No state carries from one burst to the next: the writes for two series
      of bursts are the writes for each series, one after the other. */
  lemma {:induction false} AllWritesAppend(xs: seq<seq<Byte>>, ys: seq<seq<Byte>>)
    ensures AllWrites(xs + ys) == AllWrites(xs) + AllWrites(ys)
    decreases |xs|
  {
    if xs == [] {
      assert xs + ys == ys;
    } else {
      assert (xs + ys)[0] == xs[0] && (xs + ys)[1..] == xs[1..] + ys;
      AllWritesAppend(xs[1..], ys);
    }
  }

  lemma AllWritesSnoc(bursts: seq<seq<Byte>>, i: nat)
    requires i < |bursts|
    ensures AllWrites(bursts[..i + 1]) == AllWrites(bursts[..i]) + Writes(bursts[i])
  {
    assert bursts[..i + 1] == bursts[..i] + [bursts[i]];
    AllWritesAppend(bursts[..i], [bursts[i]]);
    assert AllWrites([bursts[i]]) == Writes(bursts[i]) + AllWrites([]);
  }

  /** Run the echo task over a series of received bursts; `written` lists the
      buffers handed to `write`, in order. */
  method EchoTask(bursts: seq<seq<Byte>>) returns (written: seq<seq<Byte>>)
    requires forall i :: 0 <= i < |bursts| ==> |bursts[i]| <= Capacity
    ensures written == AllWrites(bursts)
  {
    written := [];
    var i := 0;
    while i < |bursts|
      invariant i <= |bursts|
      invariant written == AllWrites(bursts[..i])
    {
      // a fresh zeroed buffer every iteration
      var buf := new Byte[Capacity](_ => 0);
      var burst := bursts[i];
      forall k | 0 <= k < |burst| {
        buf[k] := burst[k];
      }
      var n := |burst|;
      assert buf[..n] == burst;
      if n > 0 {
        if WellFormed(buf[..n]) {
          written := written + [EchoPrefix];
          written := written + [buf[..n]];
          written := written + [LineEnd];
        }
      }
      AllWritesSnoc(bursts, i);
      i := i + 1;
    }
    assert bursts[..i] == bursts;
  }
}
