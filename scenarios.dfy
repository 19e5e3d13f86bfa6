/**
 * Concrete runs of the receive pipeline: two delimited words, an
 * undelimited overflow, a non-UTF-8 frame, and reads that fail before one
 * succeeds.
 */
module Scenarios {
  import opened Common
  import opened Framing
  import opened Utf8
  import opened Command

  const HelloBytes: seq<Byte> := [0x68, 0x65, 0x6C, 0x6C, 0x6F]
  const WorldBytes: seq<Byte> := [0x77, 0x6F, 0x72, 0x6C, 0x64]

  /** A word with no delimiter in it just becomes the pending frame. */
  lemma {:induction false} WordAccumulates(word: seq<Byte>)
    requires 0 < |word| <= Capacity && NoDelimiter(word)
    ensures Run(SuppressEmpty, [], word) == StepResult([], word)
  {
    OverflowEveryCapacity(SuppressEmpty, [], word);
    RunStream(SuppressEmpty, [], word);
    var r := Run(SuppressEmpty, [], word);
    assert r.out == [];
    StripZerosKeeps(word);
    assert Flatten(r.out) + r.pending == r.pending;
    assert [] + StripZeros(word) == word;
  }

  lemma {:induction false} StripZerosKeeps(s: seq<Byte>)
    requires NoDelimiter(s)
    ensures StripZeros(s) == s
    decreases |s|
  {
    if s != [] {
      assert NoDelimiter(s[1..]) by {
        forall i | 0 <= i < |s[1..]| ensures s[1..][i] != 0 {
          assert s[1..][i] == s[i + 1];
        }
      }
      StripZerosKeeps(s[1..]);
    }
  }

  /** A word followed by a delimiter is handed on as one frame. */
  lemma DelimitedWord(word: seq<Byte>)
    requires 0 < |word| <= Capacity && NoDelimiter(word)
    ensures Run(SuppressEmpty, [], word + [0]) == StepResult([word], [])
  {
    WordAccumulates(word);
    RunSnoc(SuppressEmpty, [], word, 0);
  }

  /** "hello\0world\0": exactly two frames, "hello" then "world", dispatched
      to handler a and handler b. */
  lemma HelloWorld()
    ensures Run(SuppressEmpty, [], HelloBytes + [0] + WorldBytes + [0])
            == StepResult([HelloBytes, WorldBytes], [])
    ensures Classify(HelloBytes) == A && Classify(WorldBytes) == B
  {
    DelimitedWord(HelloBytes);
    DelimitedWord(WorldBytes);
    RunAppend(SuppressEmpty, [], HelloBytes + [0], WorldBytes + [0]);
    assert HelloBytes + [0] + WorldBytes + [0] == (HelloBytes + [0]) + (WorldBytes + [0]);
    HelloIsA();
    WorldIsB();
  }

  /** "hello" holds the keyword: handler a. */
  lemma HelloIsA()
    ensures Classify(HelloBytes) == A
  {
    AsciiWellFormed(HelloBytes);
    ClassifyBytes(HelloBytes);
    assert IsPrefix(KeywordBytes, HelloBytes);
  }

  /** "world" is valid UTF-8 without the keyword: handler b. */
  lemma WorldIsB()
    ensures Classify(WorldBytes) == B
  {
    AsciiWellFormed(WorldBytes);
    ClassifyBytes(WorldBytes);
    WorldLacksKeyword();
  }

  lemma WorldLacksKeyword()
    ensures !Contains(WorldBytes, KeywordBytes)
  {
    // "world" is shorter than "hello" once its first byte is gone, and
    // differs from it in the first byte
    assert WorldBytes[..5][0] != KeywordBytes[0];
    assert !IsPrefix(KeywordBytes, WorldBytes);
    assert |WorldBytes[1..]| < |KeywordBytes|;
    NoRoomForPattern(WorldBytes[1..], KeywordBytes);
  }

  /** A pattern longer than the text does not occur in it. */
  lemma {:induction false} NoRoomForPattern(s: seq<Byte>, p: seq<Byte>)
    requires |s| < |p|
    ensures !Contains(s, p)
    decreases |s|
  {
    if s != [] {
      NoRoomForPattern(s[1..], p);
    }
  }

  /** 70 bytes without a delimiter: one full frame of 64 is flushed and the
      remaining 6 bytes stay pending, in order. */
  lemma SeventyBytes(input: seq<Byte>)
    requires |input| == 70 && NoDelimiter(input)
    ensures var r := Run(SuppressEmpty, [], input);
            r.out == [input[..64]] && r.pending == input[64..]
  {
    OverflowEveryCapacity(SuppressEmpty, [], input);
    RunStream(SuppressEmpty, [], input);
    StripZerosKeeps(input);
    var r := Run(SuppressEmpty, [], input);
    assert |r.out| == 1 && |r.pending| == 6;
    assert r.out[1..] == [];
    assert Flatten(r.out) == r.out[0] + Flatten(r.out[1..]);
    assert Flatten(r.out) == r.out[0];
    assert [] + StripZeros(input) == input;
    assert r.out[0] + r.pending == input;
    assert r.out[0] == input[..64];
  }

  /** [0xFF, 0xFE, 0x00]: one frame of two bytes, which is not UTF-8 and so
      takes the raw path. */
  lemma NotUtf8Frame()
    ensures Run(SuppressEmpty, [], [0xFF, 0xFE, 0x00]) == StepResult([[0xFF, 0xFE]], [])
    ensures Classify([0xFF, 0xFE]) == Raw
  {
    var word: seq<Byte> := [0xFF, 0xFE];
    DelimitedWord(word);
    assert word + [0] == [0xFF, 0xFE, 0x00];
    ClassifyBytes([0xFF, 0xFE]);
    assert LeadLength([0xFF, 0xFE]) == 0;
  }

  /** Failed reads before a good one leave the framing exactly as if they had
      not happened. */
  lemma {:induction false} FailedReadsChangeNothing(failures: nat, rest: seq<ReadResult>)
    ensures Received(seq(failures, _ => ReadError) + rest) == Received(rest)
    decreases failures
  {
    var errs := seq(failures, _ => ReadError);
    if failures > 0 {
      assert (errs + rest)[0] == ReadError;
      assert (errs + rest)[1..] == seq(failures - 1, _ => ReadError) + rest;
      FailedReadsChangeNothing(failures - 1, rest);
    } else {
      assert errs + rest == rest;
    }
  }
}
