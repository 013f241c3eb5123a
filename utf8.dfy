/** Bytes and the UTF-8 decoding that `bytes.decode(errors="ignore")` performs.

    A well-formed UTF-8 sequence (Table 3-7 of the Unicode Standard) becomes one
    character; every byte that does not start a well-formed sequence is dropped.
    Dropping one byte at a time is the same as dropping Python's "maximal
    subpart": every byte of such a subpart after its lead byte is a continuation
    byte, and a continuation byte never starts a well-formed sequence. */
module Utf8 {

  newtype uint8 = x: int | 0 <= x < 256

  predicate IsContinuation(b: uint8) {
    0x80 <= b < 0xC0
  }

  /** Length of the well-formed sequence at the head of `s`, or 0 if there is none. */
  function SequenceLength(s: seq<uint8>): (n: nat)
    requires |s| > 0
    ensures n <= |s| && n <= 4
    ensures n == 1 <==> s[0] < 0x80
  {
    var b := s[0];
    if b < 0x80 then 1
    else if 0xC2 <= b < 0xE0 then
      if |s| >= 2 && IsContinuation(s[1]) then 2 else 0
    else if 0xE0 <= b < 0xF0 then
      var lo: uint8 := if b == 0xE0 then 0xA0 else 0x80;
      var hi: uint8 := if b == 0xED then 0xA0 else 0xC0;
      if |s| >= 3 && lo <= s[1] < hi && IsContinuation(s[2]) then 3 else 0
    else if 0xF0 <= b < 0xF5 then
      var lo: uint8 := if b == 0xF0 then 0x90 else 0x80;
      var hi: uint8 := if b == 0xF4 then 0x90 else 0xC0;
      if |s| >= 4 && lo <= s[1] < hi && IsContinuation(s[2]) && IsContinuation(s[3]) then 4 else 0
    else 0
  }

  predicate IsScalarValue(v: int) {
    0 <= v < 0xD800 || 0xE000 <= v < 0x11_0000
  }

  /** The scalar value a well-formed sequence encodes. */
  function ScalarOf(s: seq<uint8>): (c: char)
    requires |s| > 0 && SequenceLength(s) == |s|
  {
    var v: int :=
      if |s| == 1 then s[0] as int
      else if |s| == 2 then (s[0] as int - 0xC0) * 64 + (s[1] as int - 0x80)
      else if |s| == 3 then
        (s[0] as int - 0xE0) * 4096 + (s[1] as int - 0x80) * 64 + (s[2] as int - 0x80)
      else
        (s[0] as int - 0xF0) * 262144 + (s[1] as int - 0x80) * 4096
        + (s[2] as int - 0x80) * 64 + (s[3] as int - 0x80);
    assert IsScalarValue(v);
    v as char
  }

  /** `bytes.decode("utf-8", errors="ignore")`. */
  function DecodeIgnore(s: seq<uint8>): (t: string)
    ensures |t| <= |s|
    decreases |s|
  {
    if s == [] then []
    else
      var n := SequenceLength(s);
      if n == 0 then DecodeIgnore(s[1..])
      else [ScalarOf(s[..n])] + DecodeIgnore(s[n..])
  }

  predicate IsAscii(s: seq<uint8>) {
    forall i :: 0 <= i < |s| ==> s[i] < 0x80
  }

  /** On ASCII input decoding is byte-for-byte: no byte is dropped and none is merged. */
  lemma {:induction false} DecodeAscii(s: seq<uint8>)
    requires IsAscii(s)
    ensures |DecodeIgnore(s)| == |s|
    ensures forall i :: 0 <= i < |s| ==> DecodeIgnore(s)[i] as int == s[i] as int
  {
    if s != [] {
      assert SequenceLength(s) == 1;
      assert s[..1] == [s[0]];
      DecodeAscii(s[1..]);
    }
  }

  /** A sequence of two or more bytes encodes a character outside ASCII. */
  lemma ScalarOfMultiByte(s: seq<uint8>)
    requires |s| >= 2 && SequenceLength(s) == |s|
    ensures ScalarOf(s) as int >= 0x80
  {
  }

  /** An ASCII character appears in the decoded text only if its byte is in the input. */
  lemma {:induction false} DecodeIgnoreAsciiFrom(s: seq<uint8>, c: char)
    requires c as int < 0x80
    requires forall k :: 0 <= k < |s| ==> s[k] as int != c as int
    ensures forall k :: 0 <= k < |DecodeIgnore(s)| ==> DecodeIgnore(s)[k] != c
    decreases |s|
  {
    if s != [] {
      var n := SequenceLength(s);
      if n == 0 {
        DecodeIgnoreAsciiFrom(s[1..], c);
      } else {
        DecodeIgnoreAsciiFrom(s[n..], c);
        if n >= 2 {
          ScalarOfMultiByte(s[..n]);
        }
      }
    }
  }

  /** ASCII bytes decode to the text with the same code points. */
  lemma DecodeAsciiText(s: seq<uint8>, t: string)
    requires IsAscii(s) && |s| == |t|
    requires forall k :: 0 <= k < |s| ==> s[k] as int == t[k] as int
    ensures DecodeIgnore(s) == t
  {
    DecodeAscii(s);
  }

  /** The UTF-8 encoding of one character: the inverse of `ScalarOf`. */
  function EncodeChar(c: char): (bs: seq<uint8>)
    ensures 1 <= |bs| <= 4
  {
    var v := c as int;
    if v < 0x80 then [v as uint8]
    else if v < 0x800 then [(0xC0 + v / 64) as uint8, (0x80 + v % 64) as uint8]
    else if v < 0x1_0000 then
      [(0xE0 + v / 4096) as uint8, (0x80 + (v / 64) % 64) as uint8, (0x80 + v % 64) as uint8]
    else
      [(0xF0 + v / 262144) as uint8, (0x80 + (v / 4096) % 64) as uint8,
       (0x80 + (v / 64) % 64) as uint8, (0x80 + v % 64) as uint8]
  }

  function Encode(t: string): (bs: seq<uint8>)
    ensures |t| <= |bs| <= 4 * |t|
  {
    if t == [] then [] else EncodeChar(t[0]) + Encode(t[1..])
  }

  /** The encoding of a character is one well-formed sequence that decodes back to it. */
  lemma EncodeCharWellFormed(c: char, rest: seq<uint8>)
    ensures SequenceLength(EncodeChar(c) + rest) == |EncodeChar(c)|
    ensures (EncodeChar(c) + rest)[..|EncodeChar(c)|] == EncodeChar(c)
    ensures ScalarOf(EncodeChar(c)) == c
  {
    var v := c as int;
    var bs := EncodeChar(c);
    assert (bs + rest)[..|bs|] == bs;
    if v < 0x80 {
    } else if v < 0x800 {
      TwoByteForm(v, rest);
    } else if v < 0x1_0000 {
      ThreeByteForm(v, rest);
    } else {
      FourByteForm(v, rest);
    }
  }

  lemma TwoByteForm(v: int, rest: seq<uint8>)
    requires 0x80 <= v < 0x800
    ensures var bs := [(0xC0 + v / 64) as uint8, (0x80 + v % 64) as uint8];
      SequenceLength(bs + rest) == 2 && SequenceLength(bs) == 2 && ScalarOf(bs) as int == v
  {
    var b0, b1 := 0xC0 + v / 64, 0x80 + v % 64;
    assert 0xC2 <= b0 < 0xE0 && 0x80 <= b1 < 0xC0;
    assert (b0 - 0xC0) * 64 + (b1 - 0x80) == v;
  }

  lemma ThreeByteForm(v: int, rest: seq<uint8>)
    requires 0x800 <= v < 0x1_0000 && IsScalarValue(v)
    ensures var bs := [(0xE0 + v / 4096) as uint8, (0x80 + (v / 64) % 64) as uint8, (0x80 + v % 64) as uint8];
      SequenceLength(bs + rest) == 3 && SequenceLength(bs) == 3 && ScalarOf(bs) as int == v
  {
    var q, m, r := v / 4096, (v / 64) % 64, v % 64;
    assert v / 64 == q * 64 + m;
    assert q * 4096 + m * 64 + r == v;
    assert q == 0 ==> m >= 32;
    assert q == 13 ==> m < 32;
  }

  lemma FourByteForm(v: int, rest: seq<uint8>)
    requires 0x1_0000 <= v < 0x11_0000
    ensures var bs := [(0xF0 + v / 262144) as uint8, (0x80 + (v / 4096) % 64) as uint8,
                       (0x80 + (v / 64) % 64) as uint8, (0x80 + v % 64) as uint8];
      SequenceLength(bs + rest) == 4 && SequenceLength(bs) == 4 && ScalarOf(bs) as int == v
  {
    var q, m1, m2, r := v / 262144, (v / 4096) % 64, (v / 64) % 64, v % 64;
    assert v / 4096 == q * 64 + m1;
    assert v / 64 == (v / 4096) * 64 + m2;
    assert q * 262144 + m1 * 4096 + m2 * 64 + r == v;
    assert q == 0 ==> m1 >= 16;
    assert q == 4 ==> m1 < 16;
  }

  /** ASCII text encodes byte for byte. */
  lemma {:induction false} EncodeAscii(t: string)
    requires forall k :: 0 <= k < |t| ==> t[k] as int < 0x80
    ensures |Encode(t)| == |t|
    ensures forall k :: 0 <= k < |t| ==> Encode(t)[k] as int == t[k] as int
  {
    if t != [] {
      EncodeAscii(t[1..]);
    }
  }

  /** Round trip: decoding the UTF-8 encoding of any string gives the string back. */
  lemma {:induction false} DecodeEncode(t: string)
    ensures DecodeIgnore(Encode(t)) == t
  {
    if t != [] {
      var bs := EncodeChar(t[0]);
      var s := Encode(t);
      EncodeCharWellFormed(t[0], Encode(t[1..]));
      assert s[|bs|..] == Encode(t[1..]);
      DecodeEncode(t[1..]);
    }
  }
}
