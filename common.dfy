/** Shared vocabulary: bytes, optional values and sequence flattening. */
module Common {

  /** A byte as it travels on the serial line (Rust `u8`). */
  newtype Byte = b: int | 0 <= b < 256

  /** Capacity of every receive buffer in the firmware (`[0u8; 64]`). */
  const Capacity: nat := 64

  datatype Option<+T> = None | Some(value: T)

  /** Outcome of one read from the transport: a byte or an opaque error. */
  datatype ReadResult = Got(b: Byte) | ReadError

  /** The concatenation of a sequence of sequences, in order. */
  function Flatten<T>(ss: seq<seq<T>>): (r: seq<T>)
    decreases |ss|
  {
    if ss == [] then [] else ss[0] + Flatten(ss[1..])
  }

  lemma {:induction false} FlattenAppend<T>(xs: seq<seq<T>>, ys: seq<seq<T>>)
    ensures Flatten(xs + ys) == Flatten(xs) + Flatten(ys)
    decreases |xs|
  {
    if xs == [] {
      assert xs + ys == ys;
    } else {
      assert (xs + ys)[1..] == xs[1..] + ys;
      FlattenAppend(xs[1..], ys);
    }
  }

  /** The bytes carried by the successful reads, in arrival order. */
  function Received(rs: seq<ReadResult>): (r: seq<Byte>)
    ensures |r| <= |rs|
    decreases |rs|
  {
    if rs == [] then []
    else (if rs[0].Got? then [rs[0].b] else []) + Received(rs[1..])
  }

  lemma {:induction false} ReceivedAppend(xs: seq<ReadResult>, ys: seq<ReadResult>)
    ensures Received(xs + ys) == Received(xs) + Received(ys)
    decreases |xs|
  {
    if xs == [] {
      assert xs + ys == ys;
    } else {
      var h := if xs[0].Got? then [xs[0].b] else [];
      assert (xs + ys)[0] == xs[0] && (xs + ys)[1..] == xs[1..] + ys;
      ReceivedAppend(xs[1..], ys);
      assert Received(xs + ys) == h + (Received(xs[1..]) + Received(ys));
      assert Received(xs) == h + Received(xs[1..]);
    }
  }

  /** The input with every delimiter byte (zero) removed. */
  function StripZeros(s: seq<Byte>): (r: seq<Byte>)
    ensures |r| <= |s|
    decreases |s|
  {
    if s == [] then []
    else (if s[0] == 0 then [] else [s[0]]) + StripZeros(s[1..])
  }
}
