/** `base64.b64decode(s)` with its defaults (`validate=False`): CPython's
    `binascii.a2b_base64` in non-strict mode over the alphabet of section 4
    of RFC 4648, and the encoder of that section as its partner.

    The decoder reads one character at a time, keeping the position within
    the current quantum (`quad`), the bits left over from the previous
    character (`left`) and the number of pad characters seen since the last
    data character (`pads`). Characters outside the alphabet are skipped; a
    pad that completes a quantum ends the input; input that stops inside a
    quantum raises `binascii.Error`, here `None`. */
module Base64 {
  import Utf8

  datatype Option<T> = None | Some(value: T)

  const Pad: char := '='

  /** The value of an alphabet character, or -1 for any other character. */
  function Index(c: char): (v: int)
    ensures -1 <= v < 64
  {
    if 'A' <= c <= 'Z' then c as int - 'A' as int
    else if 'a' <= c <= 'z' then c as int - 'a' as int + 26
    else if '0' <= c <= '9' then c as int - '0' as int + 52
    else if c == '+' then 62
    else if c == '/' then 63
    else -1
  }

  /** The alphabet character for value `v` (Table 1 of RFC 4648). */
  function Digit(v: nat): (c: char)
    requires v < 64
    ensures Index(c) == v && c != Pad
  {
    if v < 26 then (v + 'A' as int) as char
    else if v < 52 then (v - 26 + 'a' as int) as char
    else if v < 62 then (v - 52 + '0' as int) as char
    else if v == 62 then '+'
    else '/'
  }

  /** The decoding loop from character `s[0]` on; `acc` holds the bytes
      written so far. Each byte is the C `unsigned char` the loop stores,
      hence `% 256`. */
  function Decoding(s: string, quad: nat, left: nat, pads: nat, acc: seq<Utf8.byte>): (r: Option<seq<Utf8.byte>>)
    requires quad < 4
    ensures r.Some? ==> |acc| <= |r.value| <= |acc| + |s|
    decreases |s|
  {
    if s == [] then
      if quad == 0 then Some(acc) else None
    else if s[0] == Pad then
      if quad >= 2 && quad + pads + 1 >= 4 then Some(acc)
      else Decoding(s[1..], quad, left, if quad >= 2 then pads + 1 else pads, acc)
    else
      var v := Index(s[0]);
      if v < 0 then Decoding(s[1..], quad, left, pads, acc)
      else if quad == 0 then Decoding(s[1..], 1, v, 0, acc)
      else if quad == 1 then Decoding(s[1..], 2, v % 16, 0, acc + [((left * 4 + v / 16) % 256) as Utf8.byte])
      else if quad == 2 then Decoding(s[1..], 3, v % 4, 0, acc + [((left * 16 + v / 4) % 256) as Utf8.byte])
      else Decoding(s[1..], 0, 0, 0, acc + [((left * 64 + v) % 256) as Utf8.byte])
  }

  /** `base64.b64decode(s)`: `None` where CPython raises `binascii.Error`. */
  function Decode(s: string): (r: Option<seq<Utf8.byte>>)
    ensures r.Some? ==> |r.value| <= |s|
  {
    Decoding(s, 0, 0, 0, [])
  }

  /** Three bytes as four characters. */
  function Quantum(b0: Utf8.byte, b1: Utf8.byte, b2: Utf8.byte): (q: string)
    ensures |q| == 4
  {
    [Digit(b0 as nat / 4), Digit(b0 as nat % 4 * 16 + b1 as nat / 16),
     Digit(b1 as nat % 16 * 4 + b2 as nat / 64), Digit(b2 as nat % 64)]
  }

  /** A final byte as two characters and `==`. */
  function OneByteTail(b0: Utf8.byte): (q: string)
    ensures |q| == 4
  {
    [Digit(b0 as nat / 4), Digit(b0 as nat % 4 * 16), Pad, Pad]
  }

  /** Two final bytes as three characters and `=`. */
  function TwoBytesTail(b0: Utf8.byte, b1: Utf8.byte): (q: string)
    ensures |q| == 4
  {
    [Digit(b0 as nat / 4), Digit(b0 as nat % 4 * 16 + b1 as nat / 16),
     Digit(b1 as nat % 16 * 4), Pad]
  }

  /** The encoding of section 4 of RFC 4648: three bytes to four characters,
      a final one or two bytes padded with `=`. */
  function Encode(bs: seq<Utf8.byte>): (s: string)
    ensures |s| == (|bs| + 2) / 3 * 4
    decreases |bs|
  {
    if |bs| == 0 then ""
    else if |bs| == 1 then OneByteTail(bs[0])
    else if |bs| == 2 then TwoBytesTail(bs[0], bs[1])
    else Quantum(bs[0], bs[1], bs[2]) + Encode(bs[3..])
  }

  /** The byte arithmetic of one quantum: the three bytes that four six-bit
      values are cut from are put back together by the decoding loop. */
  lemma QuantumBytes(b0: nat, b1: nat, b2: nat)
    requires b0 < 256 && b1 < 256 && b2 < 256
    ensures var v0, v1 := b0 / 4, b0 % 4 * 16 + b1 / 16;
            var v2, v3 := b1 % 16 * 4 + b2 / 64, b2 % 64;
            (v0 * 4 + v1 / 16) % 256 == b0 && (v1 % 16 * 16 + v2 / 4) % 256 == b1 &&
            (v2 % 4 * 64 + v3) % 256 == b2
  {
    var v1, v2 := b0 % 4 * 16 + b1 / 16, b1 % 16 * 4 + b2 / 64;
    assert v1 / 16 == b0 % 4 && v1 % 16 == b1 / 16;
    assert v2 / 4 == b1 % 16 && v2 % 4 == b2 / 64;
    assert b0 / 4 * 4 + b0 % 4 == b0;
    assert b1 / 16 * 16 + b1 % 16 == b1;
    assert b2 / 64 * 64 + b2 % 64 == b2;
  }

  /** One alphabet character read at position `quad` of a quantum. */
  lemma DataStep(c: char, rest: string, quad: nat, left: nat, pads: nat, acc: seq<Utf8.byte>)
    requires quad < 4 && Index(c) >= 0
    ensures var v := Index(c);
            Decoding([c] + rest, quad, left, pads, acc) ==
              if quad == 0 then Decoding(rest, 1, v, 0, acc)
              else if quad == 1 then Decoding(rest, 2, v % 16, 0, acc + [((left * 4 + v / 16) % 256) as Utf8.byte])
              else if quad == 2 then Decoding(rest, 3, v % 4, 0, acc + [((left * 16 + v / 4) % 256) as Utf8.byte])
              else Decoding(rest, 0, 0, 0, acc + [((left * 64 + v) % 256) as Utf8.byte])
  {
    assert ([c] + rest)[1..] == rest;
  }

  /** A whole quantum of four characters gives back its three bytes. */
  lemma DecodingQuantum(b0: Utf8.byte, b1: Utf8.byte, b2: Utf8.byte, rest: string, acc: seq<Utf8.byte>)
    ensures Decoding(Quantum(b0, b1, b2) + rest, 0, 0, 0, acc) == Decoding(rest, 0, 0, 0, acc + [b0, b1, b2])
  {
    var v0, v1 := b0 as nat / 4, b0 as nat % 4 * 16 + b1 as nat / 16;
    var v2, v3 := b1 as nat % 16 * 4 + b2 as nat / 64, b2 as nat % 64;
    QuantumBytes(b0 as nat, b1 as nat, b2 as nat);
    var r3 := [Digit(v3)] + rest;
    var r2 := [Digit(v2)] + r3;
    var r1 := [Digit(v1)] + r2;
    assert Quantum(b0, b1, b2) + rest == [Digit(v0)] + r1;
    DataStep(Digit(v0), r1, 0, 0, 0, acc);
    DataStep(Digit(v1), r2, 1, v0, 0, acc);
    DataStep(Digit(v2), r3, 2, v1 % 16, 0, acc + [b0]);
    DataStep(Digit(v3), rest, 3, v2 % 4, 0, acc + [b0] + [b1]);
    assert acc + [b0] + [b1] + [b2] == acc + [b0, b1, b2];
  }

  /** The byte arithmetic of the padded quanta. */
  lemma TailBytes(b0: nat, b1: nat)
    requires b0 < 256 && b1 < 256
    ensures (b0 / 4 * 4 + b0 % 4 * 16 / 16) % 256 == b0
    ensures var v1, v2 := b0 % 4 * 16 + b1 / 16, b1 % 16 * 4;
            (b0 / 4 * 4 + v1 / 16) % 256 == b0 && (v1 % 16 * 16 + v2 / 4) % 256 == b1
  {
    QuantumBytes(b0, b1, 0);
    QuantumBytes(b0, 0, 0);
  }

  /** A final byte, encoded as two characters and `==`, is given back. */
  lemma DecodingOneByte(b0: Utf8.byte, acc: seq<Utf8.byte>)
    ensures Decoding(OneByteTail(b0), 0, 0, 0, acc) == Some(acc + [b0])
  {
    var v0, v1 := b0 as nat / 4, b0 as nat % 4 * 16;
    TailBytes(b0 as nat, 0);
    var r1 := [Digit(v1)] + [Pad, Pad];
    assert OneByteTail(b0) == [Digit(v0)] + r1;
    DataStep(Digit(v0), r1, 0, 0, 0, acc);
    DataStep(Digit(v1), [Pad, Pad], 1, v0, 0, acc);
    assert [Pad, Pad][1..] == [Pad];
  }

  /** Two final bytes, encoded as three characters and `=`, are given back. */
  lemma DecodingTwoBytes(b0: Utf8.byte, b1: Utf8.byte, acc: seq<Utf8.byte>)
    ensures Decoding(TwoBytesTail(b0, b1), 0, 0, 0, acc) == Some(acc + [b0, b1])
  {
    var v0, v1 := b0 as nat / 4, b0 as nat % 4 * 16 + b1 as nat / 16;
    var v2 := b1 as nat % 16 * 4;
    TailBytes(b0 as nat, b1 as nat);
    var r2 := [Digit(v2)] + [Pad];
    var r1 := [Digit(v1)] + r2;
    assert TwoBytesTail(b0, b1) == [Digit(v0)] + r1;
    DataStep(Digit(v0), r1, 0, 0, 0, acc);
    DataStep(Digit(v1), r2, 1, v0, 0, acc);
    DataStep(Digit(v2), [Pad], 2, v1 % 16, 0, acc + [b0]);
    assert acc + [b0] + [b1] == acc + [b0, b1];
  }

  /** Decoding undoes encoding from any point where a quantum starts. */
  lemma {:induction false} DecodingEncode(bs: seq<Utf8.byte>, acc: seq<Utf8.byte>)
    ensures Decoding(Encode(bs), 0, 0, 0, acc) == Some(acc + bs)
    decreases |bs|
  {
    if |bs| == 0 {
      assert acc + bs == acc;
    } else if |bs| == 1 {
      assert acc + bs == acc + [bs[0]];
      DecodingOneByte(bs[0], acc);
    } else if |bs| == 2 {
      assert acc + bs == acc + [bs[0], bs[1]];
      DecodingTwoBytes(bs[0], bs[1], acc);
    } else {
      DecodingQuantum(bs[0], bs[1], bs[2], Encode(bs[3..]), acc);
      DecodingEncode(bs[3..], acc + [bs[0], bs[1], bs[2]]);
      SplitThree(acc, bs);
    }
  }

  lemma SplitThree(acc: seq<Utf8.byte>, bs: seq<Utf8.byte>)
    requires |bs| >= 3
    ensures acc + [bs[0], bs[1], bs[2]] + bs[3..] == acc + bs
  {
    assert [bs[0], bs[1], bs[2]] + bs[3..] == bs;
  }

  /** `b64decode(b64encode(bs)) == bs`. */
  lemma DecodeEncode(bs: seq<Utf8.byte>)
    ensures Decode(Encode(bs)) == Some(bs)
  {
    DecodingEncode(bs, []);
    assert [] + bs == bs;
  }

  /** The encoding uses only alphabet characters and the pad. */
  lemma {:induction false} EncodeAlphabet(bs: seq<Utf8.byte>)
    ensures forall i :: 0 <= i < |Encode(bs)| ==> Index(Encode(bs)[i]) >= 0 || Encode(bs)[i] == Pad
    decreases |bs|
  {
    if |bs| >= 3 {
      EncodeAlphabet(bs[3..]);
    }
  }
}
