/**
 * Well-formed UTF-8 as defined by the grammar in section 4 of RFC 3629 (the
 * check behind `core::str::from_utf8`), with an encoder and a decoder that
 * make the predicate's meaning precise: a byte string is well formed exactly
 * when it is the encoding of a string of Unicode scalar values.
 */
module Utf8 {
  import opened Common

  /** UTF8-tail = %x80-BF */
  predicate Tail(b: Byte)
  {
    0x80 <= b <= 0xBF
  }

  /** The length of the well-formed character that starts `s`, or 0 when no
      well-formed character starts it:
        UTF8-1 = %x00-7F
        UTF8-2 = %xC2-DF UTF8-tail
        UTF8-3 = %xE0 %xA0-BF UTF8-tail / %xE1-EC 2( UTF8-tail ) /
                 %xED %x80-9F UTF8-tail / %xEE-EF 2( UTF8-tail )
        UTF8-4 = %xF0 %x90-BF 2( UTF8-tail ) / %xF1-F3 3( UTF8-tail ) /
                 %xF4 %x80-8F 2( UTF8-tail ) */
  function LeadLength(s: seq<Byte>): (k: nat)
    ensures k <= 4 && k <= |s|
  {
    if |s| == 0 then 0
    else if s[0] <= 0x7F then 1
    else if 0xC2 <= s[0] <= 0xDF then
      (if |s| >= 2 && Tail(s[1]) then 2 else 0)
    else if s[0] == 0xE0 then
      (if |s| >= 3 && 0xA0 <= s[1] <= 0xBF && Tail(s[2]) then 3 else 0)
    else if (0xE1 <= s[0] <= 0xEC) || (0xEE <= s[0] <= 0xEF) then
      (if |s| >= 3 && Tail(s[1]) && Tail(s[2]) then 3 else 0)
    else if s[0] == 0xED then
      (if |s| >= 3 && 0x80 <= s[1] <= 0x9F && Tail(s[2]) then 3 else 0)
    else if s[0] == 0xF0 then
      (if |s| >= 4 && 0x90 <= s[1] <= 0xBF && Tail(s[2]) && Tail(s[3]) then 4 else 0)
    else if 0xF1 <= s[0] <= 0xF3 then
      (if |s| >= 4 && Tail(s[1]) && Tail(s[2]) && Tail(s[3]) then 4 else 0)
    else if s[0] == 0xF4 then
      (if |s| >= 4 && 0x80 <= s[1] <= 0x8F && Tail(s[2]) && Tail(s[3]) then 4 else 0)
    else 0
  }

  /** UTF8-octets = *( UTF8-char ) */
  predicate WellFormed(s: seq<Byte>)
    decreases |s|
  {
    s == [] || (LeadLength(s) > 0 && WellFormed(s[LeadLength(s)..]))
  }

  /** A code point that is a Unicode scalar value (what a `char` holds). */
  predicate IsScalar(cp: int)
  {
    (0 <= cp < 0xD800) || (0xE000 <= cp < 0x11_0000)
  }

  /** The encoding of one character, from its code point split into 6-bit groups. */
  function EncodeChar(c: char): (r: seq<Byte>)
    ensures 1 <= |r| <= 4
  {
    var cp := c as int;
    var r0, q1 := cp % 64, cp / 64;
    var r1, q2 := q1 % 64, q1 / 64;
    var r2, q3 := q2 % 64, q2 / 64;
    if cp < 0x80 then [cp as Byte]
    else if cp < 0x800 then [(0xC0 + q1) as Byte, (0x80 + r0) as Byte]
    else if cp < 0x1_0000 then [(0xE0 + q2) as Byte, (0x80 + r1) as Byte, (0x80 + r0) as Byte]
    else [(0xF0 + q3) as Byte, (0x80 + r2) as Byte, (0x80 + r1) as Byte, (0x80 + r0) as Byte]
  }

  /** The encoding of a string: its characters' encodings, in order. */
  function Encode(t: string): (r: seq<Byte>)
    ensures |t| <= |r| <= 4 * |t|
    decreases |t|
  {
    if t == [] then [] else EncodeChar(t[0]) + Encode(t[1..])
  }

  /** The code point of the well-formed character that starts `s`. */
  function DecodeChar(s: seq<Byte>): (cp: int)
    requires LeadLength(s) > 0
    ensures IsScalar(cp)
  {
    var k := LeadLength(s);
    if k == 1 then s[0] as int
    else if k == 2 then (s[0] as int - 0xC0) * 64 + (s[1] as int - 0x80)
    else if k == 3 then
      ((s[0] as int - 0xE0) * 64 + (s[1] as int - 0x80)) * 64 + (s[2] as int - 0x80)
    else
      (((s[0] as int - 0xF0) * 64 + (s[1] as int - 0x80)) * 64 + (s[2] as int - 0x80)) * 64
        + (s[3] as int - 0x80)
  }

  /** `core::str::from_utf8`: the string a byte string encodes, if any. */
  function Decode(s: seq<Byte>): (r: Option<string>)
    decreases |s|
  {
    if s == [] then Some("")
    else
      var k := LeadLength(s);
      if k == 0 then None
      else match Decode(s[k..])
        case None => None
        case Some(t) => Some([DecodeChar(s) as char] + t)
  }

  /** Decoding succeeds exactly on the well-formed byte strings. */
  lemma {:induction false} DecodeSucceedsIffWellFormed(s: seq<Byte>)
    ensures Decode(s).Some? <==> WellFormed(s)
    decreases |s|
  {
    if s != [] && LeadLength(s) > 0 {
      DecodeSucceedsIffWellFormed(s[LeadLength(s)..]);
    }
  }

  /** The character that one encoding starts is read back whole. */
  lemma EncodeCharRead(c: char, rest: seq<Byte>)
    ensures var e := EncodeChar(c);
            LeadLength(e + rest) == |e| && DecodeChar(e + rest) == c as int
  {
    var cp := c as int;
    var r0, q1 := cp % 64, cp / 64;
    var r1, q2 := q1 % 64, q1 / 64;
    var r2, q3 := q2 % 64, q2 / 64;
    if cp < 0x80 {
    } else if cp < 0x800 {
      ReadTwo(cp, q1, r0, EncodeChar(c) + rest);
    } else if cp < 0x1_0000 {
      ReadThree(cp, q2, r1, r0, EncodeChar(c) + rest);
    } else {
      ReadFour(cp, q3, r2, r1, r0, EncodeChar(c) + rest);
    }
  }

  lemma ReadTwo(cp: int, a: int, b: int, s: seq<Byte>)
    requires 0x80 <= cp < 0x800 && 0 <= b < 64 && cp == a * 64 + b
    requires |s| >= 2 && s[0] as int == 0xC0 + a && s[1] as int == 0x80 + b
    ensures LeadLength(s) == 2 && DecodeChar(s) == cp
  {
  }

  lemma ReadThree(cp: int, a: int, b: int, c: int, s: seq<Byte>)
    requires IsScalar(cp) && 0x800 <= cp < 0x1_0000
    requires 0 <= b < 64 && 0 <= c < 64 && cp == (a * 64 + b) * 64 + c
    requires |s| >= 3 && s[0] as int == 0xE0 + a
    requires s[1] as int == 0x80 + b && s[2] as int == 0x80 + c
    ensures LeadLength(s) == 3 && DecodeChar(s) == cp
  {
    assert a == 0 ==> b >= 32;
    assert a == 13 ==> b < 32;
  }

  lemma ReadFour(cp: int, a: int, b: int, c: int, d: int, s: seq<Byte>)
    requires 0x1_0000 <= cp < 0x11_0000
    requires 0 <= b < 64 && 0 <= c < 64 && 0 <= d < 64
    requires cp == ((a * 64 + b) * 64 + c) * 64 + d
    requires |s| >= 4 && s[0] as int == 0xF0 + a && s[1] as int == 0x80 + b
    requires s[2] as int == 0x80 + c && s[3] as int == 0x80 + d
    ensures LeadLength(s) == 4 && DecodeChar(s) == cp
  {
    assert a == 0 ==> b >= 16;
    assert a == 4 ==> b < 16;
  }

  /** Decoding undoes encoding. */
  lemma {:induction false} DecodeEncode(t: string)
    ensures Decode(Encode(t)) == Some(t)
    decreases |t|
  {
    if t != [] {
      var e := EncodeChar(t[0]);
      EncodeCharRead(t[0], Encode(t[1..]));
      assert (e + Encode(t[1..]))[|e|..] == Encode(t[1..]);
      DecodeEncode(t[1..]);
      assert [t[0]] + t[1..] == t;
    }
  }

  /** Every encoding is well formed. */
  lemma EncodeWellFormed(t: string)
    ensures WellFormed(Encode(t))
  {
    DecodeEncode(t);
    DecodeSucceedsIffWellFormed(Encode(t));
  }

  /** The character read from the front of a byte string encodes back to
      exactly the bytes it was read from. */
  lemma EncodeDecodeChar(s: seq<Byte>)
    requires LeadLength(s) > 0
    ensures EncodeChar(DecodeChar(s) as char) == s[..LeadLength(s)]
  {
    var k := LeadLength(s);
    if k == 2 {
      DecodeTwo(s);
    } else if k == 3 {
      DecodeThree(s);
    } else if k == 4 {
      DecodeFour(s);
    }
  }

  lemma DecodeTwo(s: seq<Byte>)
    requires LeadLength(s) == 2
    ensures EncodeChar(DecodeChar(s) as char) == s[..2]
  {
    EncodeTwo(DecodeChar(s), s[0] as int - 0xC0, s[1] as int - 0x80);
    assert s[..2] == [s[0], s[1]];
  }

  lemma DecodeThree(s: seq<Byte>)
    requires LeadLength(s) == 3
    ensures EncodeChar(DecodeChar(s) as char) == s[..3]
  {
    EncodeThree(DecodeChar(s), s[0] as int - 0xE0, s[1] as int - 0x80, s[2] as int - 0x80);
    assert s[..3] == [s[0], s[1], s[2]];
  }

  lemma DecodeFour(s: seq<Byte>)
    requires LeadLength(s) == 4
    ensures EncodeChar(DecodeChar(s) as char) == s[..4]
  {
    EncodeFour(DecodeChar(s), s[0] as int - 0xF0, s[1] as int - 0x80, s[2] as int - 0x80, s[3] as int - 0x80);
    assert s[..4] == [s[0], s[1], s[2], s[3]];
  }

  lemma EncodeTwo(cp: int, a: int, b: int)
    requires IsScalar(cp) && 0x80 <= cp < 0x800
    requires 0 <= b < 64 && cp == a * 64 + b
    ensures EncodeChar(cp as char) == [(0xC0 + a) as Byte, (0x80 + b) as Byte]
  {
    DivMod64(a, b);
  }

  lemma EncodeThree(cp: int, a: int, b: int, c: int)
    requires IsScalar(cp) && 0x800 <= cp < 0x1_0000
    requires 0 <= b < 64 && 0 <= c < 64 && cp == (a * 64 + b) * 64 + c
    ensures EncodeChar(cp as char)
            == [(0xE0 + a) as Byte, (0x80 + b) as Byte, (0x80 + c) as Byte]
  {
    DivMod64(a * 64 + b, c);
    DivMod64(a, b);
  }

  lemma EncodeFour(cp: int, a: int, b: int, c: int, d: int)
    requires IsScalar(cp) && 0x1_0000 <= cp
    requires 0 <= b < 64 && 0 <= c < 64 && 0 <= d < 64
    requires cp == ((a * 64 + b) * 64 + c) * 64 + d
    ensures EncodeChar(cp as char)
            == [(0xF0 + a) as Byte, (0x80 + b) as Byte, (0x80 + c) as Byte, (0x80 + d) as Byte]
  {
    DivMod64((a * 64 + b) * 64 + c, d);
    DivMod64(a * 64 + b, c);
    DivMod64(a, b);
  }

  lemma DivMod64(x: int, r: int)
    requires 0 <= r < 64
    ensures (x * 64 + r) / 64 == x && (x * 64 + r) % 64 == r
  {
  }

  /** Encoding undoes decoding: a well-formed byte string is the encoding of
      the string it decodes to, and of no other. */
  lemma {:induction false} EncodeDecode(s: seq<Byte>)
    requires Decode(s).Some?
    ensures Encode(Decode(s).value) == s
    decreases |s|
  {
    if s != [] {
      var k := LeadLength(s);
      DecodeFront(s);
      EncodeDecodeChar(s);
      EncodeDecode(s[k..]);
      Assemble(s, k, Decode(s).value, DecodeChar(s) as char, Decode(s[k..]).value);
    }
  }

  /** The encodings of a first character and of the rest make up the whole. */
  lemma Assemble(s: seq<Byte>, k: nat, t: string, c: char, rest: string)
    requires k <= |s| && t == [c] + rest
    requires EncodeChar(c) == s[..k] && Encode(rest) == s[k..]
    ensures Encode(t) == s
  {
    EncodeFront([c], rest);
    assert s == s[..k] + s[k..];
  }

  /** One step of Decode on a byte string it accepts. */
  lemma DecodeFront(s: seq<Byte>)
    requires s != [] && Decode(s).Some?
    ensures LeadLength(s) > 0 && Decode(s[LeadLength(s)..]).Some?
    ensures Decode(s).value == [DecodeChar(s) as char] + Decode(s[LeadLength(s)..]).value
  {
  }

  /** One step of Encode. */
  lemma EncodeFront(c: seq<char>, t: string)
    requires |c| == 1
    ensures Encode(c + t) == EncodeChar(c[0]) + Encode(t)
  {
    assert (c + t)[0] == c[0] && (c + t)[1..] == t;
  }

  lemma {:induction false} EncodeAppend(t: string, u: string)
    ensures Encode(t + u) == Encode(t) + Encode(u)
    decreases |t|
  {
    if t == [] {
      assert t + u == u;
    } else {
      assert (t + u)[0] == t[0] && (t + u)[1..] == t[1..] + u;
      EncodeAppend(t[1..], u);
    }
  }

  /** Well-formed text joined to well-formed text is well formed. */
  lemma WellFormedAppend(x: seq<Byte>, y: seq<Byte>)
    requires WellFormed(x) && WellFormed(y)
    ensures WellFormed(x + y)
  {
    DecodeSucceedsIffWellFormed(x);
    DecodeSucceedsIffWellFormed(y);
    EncodeDecode(x);
    EncodeDecode(y);
    var t, u := Decode(x).value, Decode(y).value;
    EncodeAppend(t, u);
    EncodeWellFormed(t + u);
  }

  /** Bytes below 0x80 are one-byte characters. */
  lemma {:induction false} AsciiWellFormed(s: seq<Byte>)
    requires forall i :: 0 <= i < |s| ==> s[i] < 0x80
    ensures WellFormed(s)
    decreases |s|
  {
    if s != [] {
      assert LeadLength(s) == 1;
      AsciiWellFormed(s[1..]);
    }
  }
}
