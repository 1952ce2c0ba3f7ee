/** UTF-8 (RFC 3629) for the two places the core turns bytes into text:
    `bytes.decode('utf-8', errors='replace')` after Base64 decoding and the
    UTF-8 step inside `urllib.parse.unquote_plus`.

    The decoder accepts exactly the well-formed sequences of RFC 3629
    section 4 and puts U+FFFD in place of every byte it cannot decode.
    CPython writes one U+FFFD per maximal ill-formed subpart instead; the
    two differ only in how many U+FFFD stand in a row, and the core only
    ever asks whether a U+FFFD is present or deletes all of them. */
module Utf8 {

  newtype byte = x: int | 0 <= x < 256

  /** U+FFFD REPLACEMENT CHARACTER. */
  const Replacement: char := '\U{FFFD}'

  predicate IsContinuation(b: byte) {
    0x80 <= b <= 0xBF
  }

  /** The range allowed for the second byte after lead byte `b0`
      (Table 3-7 of the Unicode standard, as RFC 3629 section 4 writes it). */
  function SecondLow(b0: byte): byte {
    if b0 == 0xE0 then 0xA0 else if b0 == 0xF0 then 0x90 else 0x80
  }

  function SecondHigh(b0: byte): byte {
    if b0 == 0xED then 0x9F else if b0 == 0xF4 then 0x8F else 0xBF
  }

  predicate SecondOk(b0: byte, b1: byte) {
    SecondLow(b0) <= b1 <= SecondHigh(b0)
  }

  /** Length of the well-formed sequence at the front of `bs`, or 0 when the
      front byte does not start one. */
  function SequenceLength(bs: seq<byte>): (n: nat)
    ensures n <= |bs| && n <= 4
    ensures |bs| > 0 && bs[0] < 0x80 ==> n == 1
  {
    if |bs| == 0 then 0
    else if bs[0] < 0x80 then 1
    else if 0xC2 <= bs[0] <= 0xDF then
      if |bs| >= 2 && IsContinuation(bs[1]) then 2 else 0
    else if 0xE0 <= bs[0] <= 0xEF then
      if |bs| >= 3 && SecondOk(bs[0], bs[1]) && IsContinuation(bs[2]) then 3 else 0
    else if 0xF0 <= bs[0] <= 0xF4 then
      if |bs| >= 4 && SecondOk(bs[0], bs[1]) && IsContinuation(bs[2]) && IsContinuation(bs[3]) then 4 else 0
    else 0
  }

  /** A Unicode scalar value: a code point that is not a surrogate. */
  predicate IsScalar(v: int) {
    0 <= v < 0xD800 || 0xE000 <= v < 0x11_0000
  }

  /** The code point a well-formed sequence of `n` bytes stands for. */
  function CodePoint(bs: seq<byte>, n: nat): (v: int)
    requires 1 <= n && SequenceLength(bs) == n
    ensures IsScalar(v)
  {
    if n == 1 then bs[0] as int
    else if n == 2 then (bs[0] as int - 0xC0) * 64 + (bs[1] as int - 0x80)
    else if n == 3 then
      (bs[0] as int - 0xE0) * 4096 + (bs[1] as int - 0x80) * 64 + (bs[2] as int - 0x80)
    else
      (bs[0] as int - 0xF0) * 262144 + (bs[1] as int - 0x80) * 4096
        + (bs[2] as int - 0x80) * 64 + (bs[3] as int - 0x80)
  }

  /** `bytes.decode('utf-8', errors='replace')`, one U+FFFD per undecodable byte. */
  function Decode(bs: seq<byte>): (s: string)
    ensures |s| <= |bs|
    decreases |bs|
  {
    if bs == [] then ""
    else
      var n := SequenceLength(bs);
      if n == 0 then [Replacement] + Decode(bs[1..])
      else [CodePoint(bs, n) as char] + Decode(bs[n..])
  }

  /** The UTF-8 encoding of one character (RFC 3629 section 3). */
  function EncodeChar(c: char): (bs: seq<byte>)
    ensures 1 <= |bs| <= 4
  {
    var v := c as int;
    if v < 0x80 then [v as byte]
    else if v < 0x800 then [(0xC0 + v / 64) as byte, (0x80 + v % 64) as byte]
    else if v < 0x1_0000 then
      [(0xE0 + v / 4096) as byte, (0x80 + v / 64 % 64) as byte, (0x80 + v % 64) as byte]
    else
      [(0xF0 + v / 262144) as byte, (0x80 + v / 4096 % 64) as byte,
       (0x80 + v / 64 % 64) as byte, (0x80 + v % 64) as byte]
  }

  /** The UTF-8 encoding of a string (`s.encode('utf-8')`). */
  function Encode(s: string): (bs: seq<byte>)
    ensures |s| <= |bs| <= 4 * |s|
  {
    if s == [] then [] else EncodeChar(s[0]) + Encode(s[1..])
  }

  /** The encoding of a character is read back as that character, whatever
      follows it. */
  lemma DecodeEncodeChar(c: char, rest: seq<byte>)
    ensures SequenceLength(EncodeChar(c) + rest) == |EncodeChar(c)|
    ensures CodePoint(EncodeChar(c) + rest, |EncodeChar(c)|) == c as int
  {
    var v := c as int;
    if v < 0x80 {
    } else if v < 0x800 {
      DecodeTwo(v, EncodeChar(c) + rest);
    } else if v < 0x1_0000 {
      DecodeThree(v, EncodeChar(c) + rest);
    } else {
      DecodeFour(v, EncodeChar(c) + rest);
    }
  }

  lemma DecodeTwo(v: int, bs: seq<byte>)
    requires 0x80 <= v < 0x800 && |bs| >= 2
    requires bs[0] as int == 0xC0 + v / 64 && bs[1] as int == 0x80 + v % 64
    ensures SequenceLength(bs) == 2 && CodePoint(bs, 2) == v
  {
  }

  lemma DecodeThree(v: int, bs: seq<byte>)
    requires 0x800 <= v < 0x1_0000 && IsScalar(v) && |bs| >= 3
    requires bs[0] as int == 0xE0 + v / 4096
    requires bs[1] as int == 0x80 + v / 64 % 64 && bs[2] as int == 0x80 + v % 64
    ensures SequenceLength(bs) == 3 && CodePoint(bs, 3) == v
  {
    var hi, mid, lo := v / 4096, v / 64 % 64, v % 64;
    assert v / 64 == hi * 64 + mid;
    assert v == hi * 4096 + mid * 64 + lo;
    assert hi == 0 ==> mid >= 32;
    assert hi == 13 ==> mid < 32;
  }

  lemma DecodeFour(v: int, bs: seq<byte>)
    requires 0x1_0000 <= v < 0x11_0000 && |bs| >= 4
    requires bs[0] as int == 0xF0 + v / 262144
    requires bs[1] as int == 0x80 + v / 4096 % 64
    requires bs[2] as int == 0x80 + v / 64 % 64 && bs[3] as int == 0x80 + v % 64
    ensures SequenceLength(bs) == 4 && CodePoint(bs, 4) == v
  {
    var top, hi, mid, lo := v / 262144, v / 4096 % 64, v / 64 % 64, v % 64;
    assert v / 4096 == top * 64 + hi;
    assert v / 64 == (v / 4096) * 64 + mid;
    assert v == top * 262144 + hi * 4096 + mid * 64 + lo;
    assert top == 0 ==> hi >= 16;
    assert top == 4 ==> hi < 16;
  }

  /** Decoding undoes encoding: every string survives a UTF-8 round trip. */
  lemma {:induction false} DecodeEncode(s: string)
    ensures Decode(Encode(s)) == s
  {
    if s != [] {
      var e := EncodeChar(s[0]);
      var rest := Encode(s[1..]);
      DecodeEncodeChar(s[0], rest);
      assert (e + rest)[|e|..] == rest;
      DecodeEncode(s[1..]);
      assert s == [s[0]] + s[1..];
    }
  }

  /** ASCII bytes decode to the characters with the same codes. */
  lemma {:induction false} DecodeAscii(bs: seq<byte>)
    requires forall i :: 0 <= i < |bs| ==> bs[i] < 0x80
    ensures |Decode(bs)| == |bs|
    ensures forall i :: 0 <= i < |bs| ==> Decode(bs)[i] as int == bs[i] as int
  {
    if bs != [] {
      DecodeAscii(bs[1..]);
      assert Decode(bs) == [bs[0] as int as char] + Decode(bs[1..]);
    }
  }
}
