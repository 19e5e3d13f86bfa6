/**
 * The payload classifier of the consumer tasks: a payload that is valid
 * UTF-8 and contains "hello" runs handler `a`, other valid UTF-8 runs
 * handler `b`, and anything else is only logged as raw bytes.
 */
module Command {
  import opened Common
  import opened Utf8

  /** `p` starts `s`. */
  predicate IsPrefix<T(==)>(p: seq<T>, s: seq<T>)
  {
    |p| <= |s| && s[..|p|] == p
  }

  /** `pat` occurs somewhere in `s` (`str::contains`). */
  predicate Contains<T(==)>(s: seq<T>, pat: seq<T>)
    decreases |s|
  {
    IsPrefix(pat, s) || (|s| > 0 && Contains(s[1..], pat))
  }

  /** `pat` occurs in `s` at offset `i`. */
  ghost predicate OccursAt<T>(s: seq<T>, pat: seq<T>, i: int)
  {
    0 <= i <= |s| - |pat| && s[i..i + |pat|] == pat
  }

  /** The recursive search finds exactly the occurrences at some offset. */
  lemma {:induction false} ContainsAt<T>(s: seq<T>, pat: seq<T>)
    ensures Contains(s, pat) <==> exists i :: OccursAt(s, pat, i)
    decreases |s|
  {
    if IsPrefix(pat, s) {
      assert OccursAt(s, pat, 0);
    } else if |s| > 0 {
      ContainsAt(s[1..], pat);
      if Contains(s[1..], pat) {
        var i :| OccursAt(s[1..], pat, i);
        assert s[i + 1..i + 1 + |pat|] == s[1..][i..i + |pat|];
        assert OccursAt(s, pat, i + 1);
      }
      if i :| OccursAt(s, pat, i) {
        assert i != 0;
        assert s[1..][i - 1..i - 1 + |pat|] == s[i..i + |pat|];
        assert OccursAt(s[1..], pat, i - 1);
      }
    }
  }

  /** The keyword, as text and as the bytes it is stored as. */
  const Keyword: string := "hello"
  const KeywordBytes: seq<Byte> := [0x68, 0x65, 0x6C, 0x6C, 0x6F]

  datatype Cmd = A | B | Raw

  /** As the consumer decides: decode the payload; if that fails, take the raw
      path; otherwise dispatch on whether the text contains the keyword. */
  function Classify(payload: seq<Byte>): (c: Cmd)
  {
    match Decode(payload)
    case None => Raw
    case Some(s) => if Contains(s, Keyword) then A else B
  }

  /** `a()`: "你好！" */
  function HandlerA(): string
  {
    "\U{4F60}\U{597D}\U{FF01}"
  }

  /** `b()`: "您们好！" */
  function HandlerB(): string
  {
    "\U{60A8}\U{4EEC}\U{597D}\U{FF01}"
  }

  /** The text a handler returns; the raw path returns none. */
  function Reply(c: Cmd): Option<string>
  {
    match c
    case A => Some(HandlerA())
    case B => Some(HandlerB())
    case Raw => None
  }

  /** An ASCII text. */
  predicate Ascii(t: string)
  {
    forall i :: 0 <= i < |t| ==> t[i] as int < 0x80
  }

  lemma KeywordEncoding()
    ensures Ascii(Keyword) && Encode(Keyword) == KeywordBytes
  {
    assert Encode(Keyword) == EncodeChar('h') + Encode("ello");
    assert Encode("ello") == EncodeChar('e') + Encode("llo");
    assert Encode("llo") == EncodeChar('l') + Encode("lo");
    assert Encode("lo") == EncodeChar('l') + Encode("o");
    assert Encode("o") == EncodeChar('o') + Encode("");
  }

  /** An ASCII byte at the front of an encoding is a whole character. */
  lemma AsciiFront(t: string)
    requires |Encode(t)| > 0 && Encode(t)[0] < 0x80
    ensures |t| > 0 && t[0] as int == Encode(t)[0] as int && EncodeChar(t[0]) == [Encode(t)[0]]
  {
  }

  /** Every byte after the first in a character's encoding is a tail byte. */
  lemma EncodeCharTails(c: char)
    ensures forall i :: 1 <= i < |EncodeChar(c)| ==> EncodeChar(c)[i] >= 0x80
  {
  }

  /** An ASCII text starts an encoding exactly when it starts the text. */
  lemma {:induction false} AsciiPrefix(pat: string, t: string)
    requires Ascii(pat)
    ensures IsPrefix(Encode(pat), Encode(t)) <==> IsPrefix(pat, t)
    decreases |pat|
  {
    if pat != [] {
      var e := EncodeChar(pat[0]);
      assert e == [pat[0] as int as Byte];
      assert Ascii(pat[1..]) by {
        forall i | 0 <= i < |pat[1..]| ensures pat[1..][i] as int < 0x80 {
          assert pat[1..][i] == pat[i + 1];
        }
      }
      if IsPrefix(Encode(pat), Encode(t)) {
        AsciiFront(t);
        assert Encode(t) == EncodeChar(t[0]) + Encode(t[1..]);
        assert Encode(pat) == e + Encode(pat[1..]);
        assert IsPrefix(Encode(pat[1..]), Encode(t[1..])) by {
          assert Encode(t)[1..] == Encode(t[1..]);
          assert Encode(pat)[1..] == Encode(pat[1..]);
        }
        AsciiPrefix(pat[1..], t[1..]);
        assert t[..|pat|] == [t[0]] + t[1..][..|pat| - 1];
      }
      if IsPrefix(pat, t) {
        assert t[0] == pat[0];
        assert IsPrefix(pat[1..], t[1..]) by {
          assert t[1..][..|pat| - 1] == t[..|pat|][1..];
        }
        AsciiPrefix(pat[1..], t[1..]);
        assert Encode(t) == e + Encode(t[1..]);
        assert Encode(pat) == e + Encode(pat[1..]);
        assert Encode(t)[..|Encode(pat)|] == e + Encode(t[1..])[..|Encode(pat[1..])|];
      }
    }
  }

  /** A pattern starting with an ASCII byte cannot start at a tail byte. */
  lemma {:induction false} SkipTails(x: seq<Byte>, y: seq<Byte>, p: seq<Byte>)
    requires |p| > 0 && p[0] < 0x80
    requires forall i :: 0 <= i < |x| ==> x[i] >= 0x80
    ensures Contains(x + y, p) <==> Contains(y, p)
    decreases |x|
  {
    if x == [] {
      assert x + y == y;
    } else {
      assert (x + y)[0] == x[0];
      assert !IsPrefix(p, x + y);
      assert (x + y)[1..] == x[1..] + y;
      SkipTails(x[1..], y, p);
    }
  }

  /** For an ASCII keyword, searching the bytes and searching the text agree. */
  lemma {:induction false} ContainsEncoded(t: string, pat: string)
    requires Ascii(pat)
    ensures Contains(Encode(t), Encode(pat)) <==> Contains(t, pat)
    decreases |t|
  {
    AsciiPrefix(pat, t);
    if pat == [] {
      assert IsPrefix(pat, t) && IsPrefix(Encode(pat), Encode(t));
    } else if t == [] {
      assert !IsPrefix(pat, t);
      AsciiPrefix(pat, t);
    } else {
      var e := EncodeChar(t[0]);
      assert Encode(pat)[0] == EncodeChar(pat[0])[0];
      EncodeCharTails(t[0]);
      assert Encode(t)[1..] == e[1..] + Encode(t[1..]);
      SkipTails(e[1..], Encode(t[1..]), Encode(pat));
      ContainsEncoded(t[1..], pat);
    }
  }

  /** The classifier in terms of the bytes: well-formedness decides raw or
      not, and a byte search for the keyword decides between the handlers. */
  lemma ClassifyBytes(payload: seq<Byte>)
    ensures Classify(payload) == Raw <==> !WellFormed(payload)
    ensures Classify(payload) == A <==> WellFormed(payload) && Contains(payload, KeywordBytes)
    ensures Classify(payload) == B <==> WellFormed(payload) && !Contains(payload, KeywordBytes)
  {
    DecodeSucceedsIffWellFormed(payload);
    if Decode(payload).Some? {
      var s := Decode(payload).value;
      EncodeDecode(payload);
      KeywordEncoding();
      ContainsEncoded(s, Keyword);
    }
  }

  /** The text the consumer ends up with for a payload: none when the bytes
      are not UTF-8, `a()`'s when they contain the keyword's bytes, `b()`'s
      otherwise. */
  lemma ReplyOfPayload(payload: seq<Byte>)
    ensures Reply(Classify(payload)).None? <==> !WellFormed(payload)
    ensures Reply(Classify(payload)) == Some(HandlerA()) <==> WellFormed(payload) && Contains(payload, KeywordBytes)
    ensures Reply(Classify(payload)) == Some(HandlerB()) <==> WellFormed(payload) && !Contains(payload, KeywordBytes)
  {
    ClassifyBytes(payload);
    assert |HandlerA()| != |HandlerB()|;
  }

  /** The handlers' replies are fixed texts whose UTF-8 encodings (9 and 12
      bytes) fit in one buffer and decode back to them. */
  lemma HandlerReplies()
    ensures |HandlerA()| == 3 && |Encode(HandlerA())| == 9
    ensures |HandlerB()| == 4 && |Encode(HandlerB())| == 12
    ensures Decode(Encode(HandlerA())) == Some(HandlerA())
    ensures Decode(Encode(HandlerB())) == Some(HandlerB())
  {
    var a, b := HandlerA(), HandlerB();
    assert Encode(a) == EncodeChar(a[0]) + Encode(a[1..]);
    assert Encode(a[1..]) == EncodeChar(a[1]) + Encode(a[2..]);
    assert Encode(a[2..]) == EncodeChar(a[2]) + Encode(a[3..]);
    assert Encode(b) == EncodeChar(b[0]) + Encode(b[1..]);
    assert Encode(b[1..]) == EncodeChar(b[1]) + Encode(b[2..]);
    assert Encode(b[2..]) == EncodeChar(b[2]) + Encode(b[3..]);
    assert Encode(b[3..]) == EncodeChar(b[3]) + Encode(b[4..]);
    DecodeEncode(a);
    DecodeEncode(b);
  }
}
