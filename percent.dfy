/** `urllib.parse.unquote_plus` with its default UTF-8 encoding and
    `errors='replace'`: percent-decoding as in section 2.1 of RFC 3986, with
    `+` read as a space as in application/x-www-form-urlencoded.

    CPython replaces `+` by a space, returns a string without `%` as it is,
    and otherwise splits the string into maximal runs of ASCII and non-ASCII
    characters: each ASCII run is percent-decoded to bytes (a `%` not
    followed by two hex digits stays a literal `%`) and those bytes are
    decoded as UTF-8; non-ASCII runs are kept verbatim. */
module Percent {
  import opened Text
  import Utf8

  predicate IsAscii(c: char) {
    c as int < 0x80
  }

  predicate AllAscii(s: string) {
    forall i :: 0 <= i < |s| ==> IsAscii(s[i])
  }

  /** The characters `unquote` reads as hex digits, either case. */
  predicate IsHexDigit(c: char) {
    '0' <= c <= '9' || 'A' <= c <= 'F' || 'a' <= c <= 'f'
  }

  function HexValue(c: char): (v: nat)
    requires IsHexDigit(c)
    ensures v < 16
  {
    if '0' <= c <= '9' then c as int - '0' as int
    else if 'A' <= c <= 'F' then c as int - 'A' as int + 10
    else c as int - 'a' as int + 10
  }

  /** The upper-case hex digit for `v` (section 2.1 of RFC 3986 recommends upper case). */
  function HexDigit(v: nat): (c: char)
    requires v < 16
    ensures IsHexDigit(c) && HexValue(c) == v
  {
    if v < 10 then (v + '0' as int) as char else (v - 10 + 'A' as int) as char
  }

  /** `unquote_to_bytes` of an ASCII string: `%` and two hex digits make one
      byte, every other character is its own code. */
  function UnquoteToBytes(s: string): (bs: seq<Utf8.byte>)
    requires AllAscii(s)
    ensures |bs| <= |s|
  {
    if s == [] then []
    else if s[0] == '%' && |s| >= 3 && IsHexDigit(s[1]) && IsHexDigit(s[2]) then
      [(HexValue(s[1]) * 16 + HexValue(s[2])) as Utf8.byte] + UnquoteToBytes(s[3..])
    else
      [s[0] as int as Utf8.byte] + UnquoteToBytes(s[1..])
  }

  /** Length of the longest all-ASCII prefix of `s`. */
  function AsciiPrefixLength(s: string): (n: nat)
    ensures n <= |s| && AllAscii(s[..n])
    ensures n < |s| ==> !IsAscii(s[n])
  {
    if s == [] || !IsAscii(s[0]) then 0
    else
      var n := 1 + AsciiPrefixLength(s[1..]);
      assert s[..n] == [s[0]] + s[1..][..n - 1];
      n
  }

  /** The body of `unquote` once a `%` is known to be present. */
  function UnquoteRuns(s: string): (r: string)
    ensures |r| <= |s|
    decreases |s|
  {
    if s == [] then ""
    else
      var k := AsciiPrefixLength(s);
      if k > 0 then Utf8.Decode(UnquoteToBytes(s[..k])) + UnquoteRuns(s[k..])
      else [s[0]] + UnquoteRuns(s[1..])
  }

  /** `urllib.parse.unquote(s)`. */
  function Unquote(s: string): (r: string)
    ensures |r| <= |s|
    ensures '%' !in s ==> r == s
  {
    if '%' !in s then s else UnquoteRuns(s)
  }

  /** `urllib.parse.unquote_plus(s)`. */
  function UnquotePlus(s: string): (r: string)
    ensures |r| <= |s|
  {
    Unquote(ReplaceChar(s, '+', ' '))
  }

  /** Every byte written as `%` and two upper-case hex digits. */
  function PercentEncode(bs: seq<Utf8.byte>): (s: string)
    ensures |s| == 3 * |bs| && AllAscii(s)
    ensures '+' !in s
    ensures |bs| > 0 ==> s[0] == '%'
  {
    if bs == [] then ""
    else ['%', HexDigit(bs[0] as nat / 16), HexDigit(bs[0] as nat % 16)] + PercentEncode(bs[1..])
  }

  /** Percent-decoding undoes percent-encoding, byte for byte. */
  lemma {:induction false} UnquoteToBytesEncode(bs: seq<Utf8.byte>)
    ensures UnquoteToBytes(PercentEncode(bs)) == bs
  {
    if bs != [] {
      var s := PercentEncode(bs);
      assert s[3..] == PercentEncode(bs[1..]);
      UnquoteToBytesEncode(bs[1..]);
      assert bs == [bs[0]] + bs[1..];
    }
  }

  /** On an ASCII string, `unquote` decodes the whole string as one run. */
  lemma UnquoteRunsAscii(s: string)
    requires s != [] && AllAscii(s)
    ensures UnquoteRuns(s) == Utf8.Decode(UnquoteToBytes(s))
  {
    var k := AsciiPrefixLength(s);
    assert k == |s|;
    assert s[..k] == s && s[k..] == [];
  }

  /** `unquote_plus` undoes the percent-encoding of the UTF-8 bytes of any
      string: the round trip of section 2.1 of RFC 3986. */
  lemma UnquotePlusRoundTrip(s: string)
    ensures UnquotePlus(PercentEncode(Utf8.Encode(s))) == s
  {
    var e := PercentEncode(Utf8.Encode(s));
    assert ReplaceChar(e, '+', ' ') == e;
    if s == [] {
      assert e == [];
    } else {
      assert e[0] == '%';
      UnquoteRunsAscii(e);
      UnquoteToBytesEncode(Utf8.Encode(s));
      Utf8.DecodeEncode(s);
    }
  }

  /** A string without `%` comes back with only `+` turned into spaces. */
  lemma UnquotePlusNoEscape(s: string)
    requires '%' !in s
    ensures UnquotePlus(s) == ReplaceChar(s, '+', ' ')
  {
    assert '%' !in ReplaceChar(s, '+', ' ');
  }
}
