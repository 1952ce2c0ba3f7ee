/** The heuristic operand decoder (`decode_string`). A token that is empty
    or all digits is returned as it is. Otherwise one leading and one
    trailing apostrophe are stripped, a URL decoding is tried when the token
    holds a `%`, a Base64 decoding is tried when the result looks like
    Base64, and the outcome is wrapped in apostrophes again.

    Python's `str.isprintable` depends on Unicode tables that are not part of
    this model: it is the parameter `printable`. */
module StringDecoder {
  import opened Text
  import Utf8
  import Percent
  import Base64

  const Apostrophe: char := '\''

  /** One leading, then one trailing apostrophe removed, when present: the
      first character goes exactly when it is an apostrophe, and then one
      more character goes from the end exactly when what is left ends with
      an apostrophe. */
  function StripApostrophes(s: string): (r: string)
    ensures |s| - 2 <= |r| <= |s|
    ensures var lead := if |s| > 0 && s[0] == Apostrophe then 1 else 0;
            lead + |r| <= |s| <= lead + |r| + 1 && r == s[lead..lead + |r|] &&
            (lead + |r| < |s| <==> lead < |s| && s[|s| - 1] == Apostrophe)
  {
    var a := if |s| > 0 && s[0] == Apostrophe then s[1..] else s;
    if |a| > 0 && a[|a| - 1] == Apostrophe then a[..|a| - 1] else a
  }

  function Quoted(s: string): string {
    [Apostrophe] + s + [Apostrophe]
  }

  /** The length a quoted token has once the 120-character cap cut it and its
      leading apostrophe is gone. */
  const CutLength: nat := 119

  /** At exactly that length a trailing `%` or `%x` is a cut escape and goes. */
  function TrimCutEscape(s: string): (r: string)
    ensures |r| <= |s| && r == s[..|r|]
    ensures |s| != CutLength ==> r == s
    ensures |s| - 2 <= |r|
    ensures |s| == CutLength && s[|s| - 1] == '%' ==> r == s[..|s| - 1]
    ensures |s| == CutLength && s[|s| - 1] != '%' && s[|s| - 2] == '%' ==> r == s[..|s| - 2]
    ensures |s| == CutLength && s[|s| - 1] != '%' && s[|s| - 2] != '%' ==> r == s
  {
    if |s| == CutLength then
      if s[|s| - 1] == '%' then s[..|s| - 1]
      else if s[|s| - 2] == '%' then s[..|s| - 2]
      else s
    else s
  }

  /** Newlines and carriage returns become spaces. */
  function SpacedLines(s: string): (r: string)
    ensures |r| == |s| && '\n' !in r && '\r' !in r
    ensures forall i :: 0 <= i < |s| ==> r[i] == (if s[i] == '\n' || s[i] == '\r' then ' ' else s[i])
  {
    ReplaceChar(ReplaceChar(s, '\n', ' '), '\r', ' ')
  }

  /** The characters the URL branch keeps after decoding. */
  predicate Kept(c: char, printable: char -> bool) {
    c != Utf8.Replacement && c != '\t' && printable(c)
  }

  function KeepPrintable(s: string, printable: char -> bool): (r: string)
    ensures |r| <= |s|
    ensures forall i :: 0 <= i < |r| ==> Kept(r[i], printable) && r[i] in s
    ensures (forall i :: 0 <= i < |s| ==> Kept(s[i], printable)) ==> r == s
  {
    if s == [] then []
    else if Kept(s[0], printable) then [s[0]] + KeepPrintable(s[1..], printable)
    else KeepPrintable(s[1..], printable)
  }

  /** Newline and carriage-return replacement works piece by piece. */
  lemma SpacedLinesAppend(a: string, b: string)
    ensures SpacedLines(a + b) == SpacedLines(a) + SpacedLines(b)
  {
    ReplaceCharAppend(a, b, '\n', ' ');
    ReplaceCharAppend(ReplaceChar(a, '\n', ' '), ReplaceChar(b, '\n', ' '), '\r', ' ');
  }

  /** A line break or a space on its own becomes one space. */
  lemma SpacedLinesBreak(d: char)
    requires d == '\n' || d == '\r' || d == ' '
    ensures SpacedLines([d]) == " "
  {
    assert SpacedLines([d])[0] == ' ';
  }

  /** The printable filter works piece by piece: the kept characters of
      `a + b` are those of `a` followed by those of `b`. */
  lemma {:induction false} KeepPrintableAppend(a: string, b: string, printable: char -> bool)
    ensures KeepPrintable(a + b, printable) == KeepPrintable(a, printable) + KeepPrintable(b, printable)
    decreases |a|
  {
    if a == [] {
      assert a + b == b;
    } else {
      assert (a + b)[0] == a[0] && (a + b)[1..] == a[1..] + b;
      KeepPrintableAppend(a[1..], b, printable);
    }
  }

  /** A single character survives exactly when it is accepted. */
  lemma KeepPrintableChar(c: char, printable: char -> bool)
    ensures KeepPrintable([c], printable) == if Kept(c, printable) then [c] else []
  {
    assert [c][1..] == [];
  }

  /** The clean-up after `unquote_plus`: runs of newlines and of carriage
      returns collapsed, both turned into spaces, then U+FFFD, tabs and
      unprintable characters removed. */
  function CleanUrlDecoded(d: string, printable: char -> bool): (r: string)
    ensures |r| <= |d|
    ensures forall i :: 0 <= i < |r| ==> r[i] != '\n' && r[i] != '\r' && Kept(r[i], printable)
  {
    KeepPrintable(SpacedLines(CollapseRuns(CollapseRuns(d, '\n'), '\r')), printable)
  }

  /** Both run collapses split at a single separator character that no run
      of newlines or carriage returns touches. */
  lemma CollapsesAround(x: string, d: char, y: string)
    requires |x| > 0 ==> x[|x| - 1] != '\n' && x[|x| - 1] != '\r'
    requires |y| > 0 ==> y[0] != '\n' && y[0] != '\r'
    ensures var x1, y1 := CollapseRuns(x, '\n'), CollapseRuns(y, '\n');
            CollapseRuns(x + [d] + y, '\n') == x1 + [d] + y1 &&
            CollapseRuns(x1 + [d] + y1, '\r') == CollapseRuns(x1, '\r') + [d] + CollapseRuns(y1, '\r')
  {
    CollapseRunsAround(x, d, y, '\n');
    if |x| > 0 {
      CollapseRunsEnds(x, '\n');
    }
    if |y| > 0 {
      CollapseRunsEnds(y, '\n');
    }
    CollapseRunsAround(CollapseRuns(x, '\n'), d, CollapseRuns(y, '\n'), '\r');
  }

  /** A single line break or space between text that does not end or start
      with a line break becomes one space, which then survives exactly when
      a space is printable; the text on either side is cleaned on its own. */
  lemma CleanUrlDecodedAround(x: string, d: char, y: string, printable: char -> bool)
    requires d == '\n' || d == '\r' || d == ' '
    requires |x| > 0 ==> x[|x| - 1] != '\n' && x[|x| - 1] != '\r'
    requires |y| > 0 ==> y[0] != '\n' && y[0] != '\r'
    ensures CleanUrlDecoded(x + [d] + y, printable) ==
            CleanUrlDecoded(x, printable) + KeepPrintable(" ", printable) + CleanUrlDecoded(y, printable)
  {
    CollapsesAround(x, d, y);
    var x2 := CollapseRuns(CollapseRuns(x, '\n'), '\r');
    var y2 := CollapseRuns(CollapseRuns(y, '\n'), '\r');
    assert CollapseRuns(CollapseRuns(x + [d] + y, '\n'), '\r') == x2 + [d] + y2;
    SpacedLinesAppend(x2 + [d], y2);
    SpacedLinesAppend(x2, [d]);
    SpacedLinesBreak(d);
    var x3, y3 := SpacedLines(x2), SpacedLines(y2);
    assert SpacedLines(x2 + [d] + y2) == x3 + " " + y3;
    KeepPrintableAppend(x3 + " ", y3, printable);
    KeepPrintableAppend(x3, " ", printable);
  }

  /** A run of two newlines is cleaned like a single space. */
  lemma CleanUrlDecodedNewlineRun(x: string, y: string, printable: char -> bool)
    requires |x| > 0 ==> x[|x| - 1] != '\n' && x[|x| - 1] != '\r'
    requires |y| > 0 ==> y[0] != '\n' && y[0] != '\r'
    ensures CleanUrlDecoded(x + ['\n', '\n'] + y, printable) == CleanUrlDecoded(x + [' '] + y, printable)
  {
    CollapseRunsPair(x, y, '\n');
    assert CleanUrlDecoded(x + ['\n', '\n'] + y, printable) == CleanUrlDecoded(x + ['\n'] + y, printable);
    CleanUrlDecodedAround(x, '\n', y, printable);
    CleanUrlDecodedAround(x, ' ', y, printable);
  }

  /** The URL branch: tried on a string with a `%` of length at least 3. */
  function UrlStage(s: string, printable: char -> bool): (r: string)
    ensures !('%' in s && |s| >= 3) ==> r == s
    ensures '%' in s && |s| >= 3 ==>
              forall i :: 0 <= i < |r| ==> r[i] != '\n' && r[i] != '\r' && Kept(r[i], printable)
  {
    if '%' in s && |s| >= 3 then CleanUrlDecoded(Percent.UnquotePlus(TrimCutEscape(s)), printable)
    else s
  }

  predicate HasUpper(s: string) { exists i :: 0 <= i < |s| && 'A' <= s[i] <= 'Z' }
  predicate HasLower(s: string) { exists i :: 0 <= i < |s| && 'a' <= s[i] <= 'z' }
  predicate HasDigit(s: string) { exists i :: 0 <= i < |s| && IsDigit(s[i]) }
  predicate HasSpecial(s: string) { exists i :: 0 <= i < |s| && (s[i] == '+' || s[i] == '/' || s[i] == '=') }

  /** How many of the four character classes occur in `s`. */
  function ClassCount(s: string): (n: nat)
    ensures n <= 4
  {
    (if HasUpper(s) then 1 else 0) + (if HasLower(s) then 1 else 0)
    + (if HasDigit(s) then 1 else 0) + (if HasSpecial(s) then 1 else 0)
  }

  predicate InBase64Alphabet(c: char) {
    'A' <= c <= 'Z' || 'a' <= c <= 'z' || IsDigit(c) || c == '+' || c == '/' || c == '='
  }

  /** The gate of the Base64 branch: at least four characters, at least three
      classes, nothing outside `A-Za-z0-9+/=`. */
  predicate LooksBase64(s: string) {
    |s| >= 4 && ClassCount(s) >= 3 && forall i :: 0 <= i < |s| ==> InBase64Alphabet(s[i])
  }

  /** `len(s) & ~3`: the length rounded down to a multiple of 4. */
  function RoundDown4(n: nat): (m: nat)
    ensures m <= n < m + 4 && m % 4 == 0
  {
    n - n % 4
  }

  /** A Base64 encoding passes the gate of the Base64 branch exactly when it
      is not empty and shows at least three character classes. */
  lemma EncodedGate(bs: seq<Utf8.byte>)
    ensures LooksBase64(Base64.Encode(bs)) <==> |bs| > 0 && ClassCount(Base64.Encode(bs)) >= 3
  {
    if |bs| > 0 && ClassCount(Base64.Encode(bs)) >= 3 {
      EncodedShape(bs);
    }
  }

  /** A multiple of 4 is its own rounding. */
  lemma RoundDownWhole(q: nat)
    ensures RoundDown4(q * 4) == q * 4 && (q * 4) % 4 == 0
  {
  }

  /** The Base64 branch: the cut string when decoding fails or yields a
      U+FFFD or a NUL, otherwise the decoded text with line breaks spaced. */
  function Base64Stage(s: string): (r: string)
    ensures !LooksBase64(s) ==> r == s
    ensures LooksBase64(s) ==>
              r == s[..RoundDown4(|s|)] ||
              ('\n' !in r && '\r' !in r && '\0' !in r && Utf8.Replacement !in r)
  {
    if !LooksBase64(s) then s
    else
      var cut := s[..RoundDown4(|s|)];
      match Base64.Decode(cut)
      case None => cut
      case Some(bs) =>
        var d := Utf8.Decode(bs);
        if Utf8.Replacement in d || '\0' in d then cut else SpacedLines(d)
  }

  /** `decode_string(s)`. */
  function DecodeString(s: string, printable: char -> bool): (r: string)
    ensures s == "" || IsDigits(s) ==> r == s
    ensures s != "" && !IsDigits(s) ==> |r| >= 2 && r[0] == Apostrophe && r[|r| - 1] == Apostrophe
  {
    if s == "" || IsDigits(s) then s
    else Quoted(Base64Stage(UrlStage(StripApostrophes(s), printable)))
  }

  /** The number of decoding rounds applied to every token. */
  const Rounds: nat := 3

  /** `decode_string` applied `n` times. */
  function DecodeRounds(s: string, n: nat, printable: char -> bool): string {
    if n == 0 then s else DecodeString(DecodeRounds(s, n - 1, printable), printable)
  }

  /** Only the empty token decodes to the empty string, in any number of
      rounds. */
  lemma {:induction false} DecodeRoundsEmpty(s: string, n: nat, printable: char -> bool)
    ensures DecodeRounds(s, n, printable) == "" <==> s == ""
  {
    if n > 0 {
      DecodeRoundsEmpty(s, n - 1, printable);
    }
  }

  /** An all-digit token survives any number of rounds unchanged. */
  lemma {:induction false} DecodeRoundsDigits(s: string, n: nat, printable: char -> bool)
    requires IsDigits(s)
    ensures DecodeRounds(s, n, printable) == s
  {
    if n > 0 {
      DecodeRoundsDigits(s, n - 1, printable);
    }
  }

  /** Empty and all-digit tokens come back unchanged; every other token comes
      back between apostrophes. */
  lemma DecodeStringShape(s: string, printable: char -> bool)
    ensures s == "" || IsDigits(s) ==> DecodeString(s, printable) == s
    ensures s != "" && !IsDigits(s) ==>
              exists body :: DecodeString(s, printable) == Quoted(body)
  {
    if s != "" && !IsDigits(s) {
      var body := Base64Stage(UrlStage(StripApostrophes(s), printable));
      assert DecodeString(s, printable) == Quoted(body);
    }
  }

  /** A quoted token whose body has no `%` and does not look like Base64 is
      its own decoding, so `'hello'` maps to itself. */
  lemma QuotedPlainFixed(body: string, printable: char -> bool)
    requires '%' !in body && !LooksBase64(body)
    ensures DecodeString(Quoted(body), printable) == Quoted(body)
  {
    var q := Quoted(body);
    assert q[0] == Apostrophe && !IsDigit(q[0]);
    assert q[1..] == body + [Apostrophe];
    assert StripApostrophes(q) == body;
  }

  /** Once a round has produced such a plain body, later rounds change
      nothing. */
  lemma PlainRoundsStable(s: string, n: nat, printable: char -> bool)
    requires s != "" && !IsDigits(s)
    requires var body := Base64Stage(UrlStage(StripApostrophes(s), printable));
             '%' !in body && !LooksBase64(body)
    ensures DecodeRounds(s, n + 1, printable) == DecodeString(s, printable)
  {
    if n > 0 {
      PlainRoundsStable(s, n - 1, printable);
      QuotedPlainFixed(Base64Stage(UrlStage(StripApostrophes(s), printable)), printable);
    }
  }

  /** The Base64 branch changes only strings that pass the gate, and then
      gives the cut string whenever decoding fails or gives a U+FFFD or a
      NUL. */
  lemma Base64Fallback(s: string)
    ensures Base64Stage(s) != s ==> LooksBase64(s)
    ensures LooksBase64(s) ==>
              var cut := s[..RoundDown4(|s|)];
              var r := Base64.Decode(cut);
              (r.None? || Utf8.Replacement in Utf8.Decode(r.value) || '\0' in Utf8.Decode(r.value))
              ==> Base64Stage(s) == cut
  {
  }

  /** Every Base64 encoding is made of alphabet characters: no `%`, no
      apostrophe, and (when it has three classes) not all digits. */
  lemma EncodedShape(bs: seq<Utf8.byte>)
    requires |bs| > 0 && ClassCount(Base64.Encode(bs)) >= 3
    ensures var e := Base64.Encode(bs);
            LooksBase64(e) && RoundDown4(|e|) == |e| && '%' !in e &&
            e[0] != Apostrophe && e[|e| - 1] != Apostrophe && !IsDigits(e)
  {
    var e := Base64.Encode(bs);
    RoundDownWhole((|bs| + 2) / 3);
    Base64.EncodeAlphabet(bs);
    forall i | 0 <= i < |e| ensures InBase64Alphabet(e[i]) && e[i] != '%' && e[i] != Apostrophe {
      assert Base64.Index(e[i]) >= 0 || e[i] == Base64.Pad;
    }
    assert HasUpper(e) || HasLower(e) || HasSpecial(e);
    var i :| 0 <= i < |e| && !IsDigit(e[i]);
  }

  /** When the gate passes and the string cut to a multiple of 4 decodes to
      clean text, the branch gives that text, whatever followed the cut. */
  lemma Base64StageDecodes(s: string, bs: seq<Utf8.byte>)
    requires LooksBase64(s) && Base64.Decode(s[..RoundDown4(|s|)]) == Base64.Some(bs)
    requires Utf8.Replacement !in Utf8.Decode(bs) && '\0' !in Utf8.Decode(bs)
    ensures Base64Stage(s) == SpacedLines(Utf8.Decode(bs))
  {
  }

  /** A string with no line break, NUL or U+FFFD, Base64-encoded from its
      UTF-8 bytes, is decoded back to itself by the Base64 branch whenever
      the encoding passes the gate. */
  lemma Base64StageRoundTrip(w: string)
    requires '\n' !in w && '\r' !in w && '\0' !in w && Utf8.Replacement !in w
    requires |w| > 0 && ClassCount(Base64.Encode(Utf8.Encode(w))) >= 3
    ensures Base64Stage(Base64.Encode(Utf8.Encode(w))) == w
  {
    var bs := Utf8.Encode(w);
    var e := Base64.Encode(bs);
    assert LooksBase64(e) && e[..RoundDown4(|e|)] == e by { EncodedShape(bs); }
    assert Base64.Decode(e) == Base64.Some(bs) by { Base64.DecodeEncode(bs); }
    assert Utf8.Decode(bs) == w by { Utf8.DecodeEncode(w); }
    assert SpacedLines(w) == w by { SpacedLinesFixed(w); }
    Base64StageDecodes(e, bs);
  }

  /** Up to three alphabet characters after such an encoding fall to the
      cut, and the branch still gives the text back. */
  lemma Base64StageCut(w: string, x: string)
    requires '\n' !in w && '\r' !in w && '\0' !in w && Utf8.Replacement !in w
    requires |w| > 0 && ClassCount(Base64.Encode(Utf8.Encode(w))) >= 3
    requires |x| < 4 && forall i :: 0 <= i < |x| ==> InBase64Alphabet(x[i])
    ensures Base64Stage(Base64.Encode(Utf8.Encode(w)) + x) == w
  {
    var bs := Utf8.Encode(w);
    var e := Base64.Encode(bs);
    var s := e + x;
    EncodedShape(bs);
    GateAppend(e, x);
    assert Base64.Decode(e) == Base64.Some(bs) by { Base64.DecodeEncode(bs); }
    assert Utf8.Decode(bs) == w by { Utf8.DecodeEncode(w); }
    SpacedLinesFixed(w);
    Base64StageDecodes(s, bs);
  }

  /** A string of whole quanta that passes the gate still passes it with up
      to three more alphabet characters, and the cut removes exactly them. */
  lemma GateAppend(e: string, x: string)
    requires LooksBase64(e) && RoundDown4(|e|) == |e|
    requires |x| < 4 && forall i :: 0 <= i < |x| ==> InBase64Alphabet(x[i])
    ensures LooksBase64(e + x) && (e + x)[..RoundDown4(|e + x|)] == e
  {
    ClassCountAppend(e, x);
    var s := e + x;
    forall i | 0 <= i < |s| ensures InBase64Alphabet(s[i]) {
      if i < |e| { assert s[i] == e[i]; } else { assert s[i] == x[i - |e|]; }
    }
    assert RoundDown4(|s|) == |e|;
    assert s[..|e|] == e;
  }

  /** Appending characters loses no character class. */
  lemma ClassCountAppend(e: string, x: string)
    ensures ClassCount(e + x) >= ClassCount(e)
  {
    if HasUpper(e) { var i :| 0 <= i < |e| && 'A' <= e[i] <= 'Z'; assert (e + x)[i] == e[i]; }
    if HasLower(e) { var i :| 0 <= i < |e| && 'a' <= e[i] <= 'z'; assert (e + x)[i] == e[i]; }
    if HasDigit(e) { var i :| 0 <= i < |e| && IsDigit(e[i]); assert (e + x)[i] == e[i]; }
    if HasSpecial(e) {
      var i :| 0 <= i < |e| && (e[i] == '+' || e[i] == '/' || e[i] == '=');
      assert (e + x)[i] == e[i];
    }
  }

  /** Text without line breaks is left alone by `SpacedLines`. */
  lemma SpacedLinesFixed(w: string)
    requires '\n' !in w && '\r' !in w
    ensures SpacedLines(w) == w
  {
  }

  /** ... and `decode_string` gives it back between apostrophes. */
  lemma DecodeStringBase64(w: string, printable: char -> bool)
    requires '\n' !in w && '\r' !in w && '\0' !in w && Utf8.Replacement !in w
    requires |w| > 0 && ClassCount(Base64.Encode(Utf8.Encode(w))) >= 3
    ensures DecodeString(Base64.Encode(Utf8.Encode(w)), printable) == Quoted(w)
  {
    var e := Base64.Encode(Utf8.Encode(w));
    assert e != "" && !IsDigits(e) && '%' !in e && e[0] != Apostrophe && e[|e| - 1] != Apostrophe by {
      EncodedShape(Utf8.Encode(w));
    }
    assert Base64Stage(e) == w by { Base64StageRoundTrip(w); }
    DecodeStringNoEscape(e, printable);
  }

  /** The same text quoted, as every round after the first receives it, is
      decoded to the same quoted text. */
  lemma DecodeStringBase64Quoted(w: string, printable: char -> bool)
    requires '\n' !in w && '\r' !in w && '\0' !in w && Utf8.Replacement !in w
    requires |w| > 0 && ClassCount(Base64.Encode(Utf8.Encode(w))) >= 3
    ensures DecodeString(Quoted(Base64.Encode(Utf8.Encode(w))), printable) == Quoted(w)
  {
    var e := Base64.Encode(Utf8.Encode(w));
    StripQuoted(e);
    assert '%' !in e by { EncodedShape(Utf8.Encode(w)); }
    Base64StageRoundTrip(w);
  }

  /** A token with no `%` that is neither quoted nor all digits goes
      straight to the Base64 branch. */
  lemma DecodeStringNoEscape(e: string, printable: char -> bool)
    requires e != "" && !IsDigits(e) && '%' !in e && e[0] != Apostrophe && e[|e| - 1] != Apostrophe
    ensures DecodeString(e, printable) == Quoted(Base64Stage(e))
  {
    StripPlain(e);
  }

  /** A printable string without tabs, line breaks or U+FFFD that does not
      look like Base64, percent-encoded byte by byte from its UTF-8 bytes, is
      given back by `decode_string` between apostrophes. */
  lemma DecodeStringPercent(w: string, printable: char -> bool)
    requires |w| > 0 && !LooksBase64(w)
    requires forall i :: 0 <= i < |w| ==> w[i] != '\n' && w[i] != '\r' && Kept(w[i], printable)
    ensures DecodeString(Percent.PercentEncode(Utf8.Encode(w)), printable) == Quoted(w)
  {
    var bs := Utf8.Encode(w);
    assert |bs| > 0 by { Utf8.DecodeEncode(w); }
    PercentEncodedShape(bs);
    Percent.UnquotePlusRoundTrip(w);
    assert '%' in Percent.PercentEncode(bs);
    DecodeStringUrl(Percent.PercentEncode(bs), w, printable);
  }

  /** A percent encoding of at least one byte starts with `%`, ends with a
      hex digit and is never of the cut length. */
  lemma PercentEncodedShape(bs: seq<Utf8.byte>)
    requires |bs| > 0
    ensures var e := Percent.PercentEncode(bs);
            |e| >= 3 && e[0] == '%' && e[|e| - 1] != Apostrophe && |e| != CutLength
  {
    var e := Percent.PercentEncode(bs);
    var k := |bs| - 1;
    assert |e| - 1 == 3 * k + 2;
    PercentEncodeDigits(bs, k);
    CutLengthNotEscapes(|bs|);
  }

  /** A token with a `%`, not quoted, whose `%`-escapes (after the cut of a
      119-character string) decode to clean text without the look of Base64
      comes back as that text. */
  lemma DecodeStringUrl(e: string, w: string, printable: char -> bool)
    requires |e| >= 3 && '%' in e && e[0] != Apostrophe && e[|e| - 1] != Apostrophe
    requires Percent.UnquotePlus(TrimCutEscape(e)) == w && !LooksBase64(w)
    requires forall i :: 0 <= i < |w| ==> w[i] != '\n' && w[i] != '\r' && Kept(w[i], printable)
    ensures DecodeString(e, printable) == Quoted(w)
  {
    var k :| 0 <= k < |e| && e[k] == '%';
    assert !IsDigit(e[k]);
    StripPlain(e);
    CleanUrlDecodedFixed(w, printable);
  }

  /** The same for a quoted token, as every round after the first receives
      it: `'a%20b'` comes back as `'a b'`. */
  lemma DecodeStringUrlQuoted(e: string, w: string, printable: char -> bool)
    requires |e| >= 3 && '%' in e
    requires Percent.UnquotePlus(TrimCutEscape(e)) == w && !LooksBase64(w)
    requires forall i :: 0 <= i < |w| ==> w[i] != '\n' && w[i] != '\r' && Kept(w[i], printable)
    ensures DecodeString(Quoted(e), printable) == Quoted(w)
  {
    StripQuoted(e);
    CleanUrlDecodedFixed(w, printable);
  }

  /** A string of whole escapes is never cut mid-escape. */
  lemma CutLengthNotEscapes(n: nat)
    ensures 3 * n != CutLength
  {
    if n <= 39 {
      assert 3 * n <= 117;
    } else {
      assert 3 * n >= 120;
    }
  }

  /** A string that neither starts nor ends with an apostrophe keeps its
      text. */
  lemma StripPlain(s: string)
    requires |s| > 0 && s[0] != Apostrophe && s[|s| - 1] != Apostrophe
    ensures StripApostrophes(s) == s
  {
  }

  /** Clean text is left alone by the clean-up of the URL branch. */
  lemma CleanUrlDecodedFixed(w: string, printable: char -> bool)
    requires forall i :: 0 <= i < |w| ==> w[i] != '\n' && w[i] != '\r' && Kept(w[i], printable)
    ensures CleanUrlDecoded(w, printable) == w
  {
    CollapseRunsIdentity(w, '\n');
    CollapseRunsIdentity(w, '\r');
    SpacedLinesFixed(w);
  }

  /** The third character of every escape is a hex digit. */
  lemma {:induction false} PercentEncodeDigits(bs: seq<Utf8.byte>, k: nat)
    requires k < |bs|
    ensures Percent.IsHexDigit(Percent.PercentEncode(bs)[3 * k + 2])
  {
    if k > 0 {
      PercentEncodeDigits(bs[1..], k - 1);
      assert Percent.PercentEncode(bs)[3..] == Percent.PercentEncode(bs[1..]);
    }
  }

  /** Quoting and then stripping gives the body back. */
  lemma StripQuoted(body: string)
    ensures StripApostrophes(Quoted(body)) == body
    ensures Quoted(body) != "" && !IsDigits(Quoted(body))
  {
    var q := Quoted(body);
    assert q[0] == Apostrophe && !IsDigit(q[0]);
    assert q[1..] == body + [Apostrophe];
  }

  /** `decode_string` three times. */
  lemma ThreeRounds(s: string, printable: char -> bool)
    ensures DecodeRounds(s, Rounds, printable) ==
              DecodeString(DecodeString(DecodeString(s, printable), printable), printable)
  {
    assert DecodeRounds(s, 1, printable) == DecodeString(s, printable);
    assert DecodeRounds(s, 2, printable) == DecodeString(DecodeRounds(s, 1, printable), printable);
  }

  /** The first URL decoding of the example: the escape `%25` gives a
      literal `%`, so `%2561` becomes `%61`. */
  lemma UnquoteFirst(s: string, t: string)
    requires |s| == 5 && s[0] == '%' && s[1] == '2' && s[2] == '5' && s[3] == '6' && s[4] == '1'
    requires |t| == 3 && t[0] == '%' && t[1] == '6' && t[2] == '1'
    ensures Percent.UnquotePlus(s) == t
  {
    assert ReplaceChar(s, '+', ' ') == s;
    Percent.UnquoteRunsAscii(s);
    EscapedEscapeBytes(s);
    Utf8.DecodeAscii([37, 54, 49]);
  }

  /** `%25` is the byte of `%`; `6` and `1` are their own bytes. */
  lemma EscapedEscapeBytes(s: string)
    requires |s| == 5 && s[0] == '%' && s[1] == '2' && s[2] == '5' && s[3] == '6' && s[4] == '1'
    ensures Percent.AllAscii(s) && Percent.UnquoteToBytes(s) == [37, 54, 49]
  {
    assert Percent.UnquoteToBytes(s[3..]) == [54, 49] by {
      assert s[3..][1..][1..] == "";
    }
  }

  /** The second: `%61` becomes `a`. */
  lemma UnquoteSecond(t: string, u: string)
    requires |t| == 3 && t[0] == '%' && t[1] == '6' && t[2] == '1'
    requires |u| == 1 && u[0] == 'a'
    ensures Percent.UnquotePlus(t) == u
  {
    assert ReplaceChar(t, '+', ' ') == t;
    Percent.UnquoteRunsAscii(t);
    assert Percent.UnquoteToBytes(t) == [97] by {
      assert t[3..] == "";
    }
    Utf8.DecodeAscii([97]);
  }

  /** Round one of the example: `%2561` gives `'%61'`. */
  lemma PercentRoundOne(s0: string, s1: string, printable: char -> bool)
    requires |s0| == 5 && s0[0] == '%' && s0[1] == '2' && s0[2] == '5' && s0[3] == '6' && s0[4] == '1'
    requires |s1| == 3 && s1[0] == '%' && s1[1] == '6' && s1[2] == '1'
    requires printable('%') && printable('6') && printable('1')
    ensures DecodeString(s0, printable) == Quoted(s1)
  {
    assert Percent.UnquotePlus(s0) == s1 by { UnquoteFirst(s0, s1); }
    assert |s0| != CutLength;
    DecodeStringUrl(s0, s1, printable);
  }

  /** Round two: `'%61'` gives `'a'`. */
  lemma PercentRoundTwo(s1: string, s2: string, printable: char -> bool)
    requires |s1| == 3 && s1[0] == '%' && s1[1] == '6' && s1[2] == '1'
    requires |s2| == 1 && s2[0] == 'a' && printable('a')
    ensures DecodeString(Quoted(s1), printable) == Quoted(s2)
  {
    UnquoteSecond(s1, s2);
    StripQuoted(s1);
    CleanUrlDecodedFixed(s2, printable);
  }

  /** Round three: `'a'` stays. */
  lemma PercentRoundThree(s2: string, printable: char -> bool)
    requires |s2| == 1 && s2[0] == 'a'
    ensures DecodeString(Quoted(s2), printable) == Quoted(s2)
  {
    assert '%' !in s2 && !LooksBase64(s2);
    QuotedPlainFixed(s2, printable);
  }

  /** Three rounds take `%2561` to `'a'`, given that `%`, `6`, `1` and `a`
      are printable: the escaped escape needs two rounds. */
  lemma PercentExample(s0: string, s1: string, s2: string, printable: char -> bool)
    requires |s0| == 5 && s0[0] == '%' && s0[1] == '2' && s0[2] == '5' && s0[3] == '6' && s0[4] == '1'
    requires |s1| == 3 && s1[0] == '%' && s1[1] == '6' && s1[2] == '1'
    requires |s2| == 1 && s2[0] == 'a'
    requires printable('%') && printable('6') && printable('1') && printable('a')
    ensures DecodeString(s0, printable) == Quoted(s1)
    ensures DecodeRounds(s0, Rounds, printable) == Quoted(s2)
  {
    ThreeRounds(s0, printable);
    assert DecodeString(s0, printable) == Quoted(s1) by { PercentRoundOne(s0, s1, printable); }
    assert DecodeString(Quoted(s1), printable) == Quoted(s2) by { PercentRoundTwo(s1, s2, printable); }
    assert DecodeString(Quoted(s2), printable) == Quoted(s2) by { PercentRoundThree(s2, printable); }
  }

  /** The UTF-8 bytes of `Hello` are its ASCII codes. */
  lemma HelloBytes(w: string)
    requires |w| == 5 && w[0] == 'H' && w[1] == 'e' && w[2] == 'l' && w[3] == 'l' && w[4] == 'o'
    ensures Utf8.Encode(w) == [72, 101, 108, 108, 111]
  {
    assert w == "Hello";
    assert Utf8.Encode("Hello") == [72, 101, 108, 108, 111];
  }

  /** `SGVsbG8=` is the Base64 encoding of those bytes. */
  lemma HelloDigits(e: string)
    requires |e| == 8 && e[0] == 'S' && e[1] == 'G' && e[2] == 'V' && e[3] == 's'
    requires e[4] == 'b' && e[5] == 'G' && e[6] == '8' && e[7] == '='
    ensures Base64.Encode([72, 101, 108, 108, 111]) == e
  {
    var bs: seq<Utf8.byte> := [72, 101, 108, 108, 111];
    assert bs[3..] == [108, 111];
    assert Base64.Encode(bs) == Base64.Quantum(72, 101, 108) + Base64.TwoBytesTail(108, 111);
    assert Base64.Quantum(72, 101, 108) == e[..4];
    assert Base64.TwoBytesTail(108, 111) == e[4..];
    assert e[..4] + e[4..] == e;
  }

  /** So `SGVsbG8=` is the Base64 encoding of the UTF-8 bytes of `Hello`. */
  lemma HelloEncoding(w: string, e: string)
    requires |w| == 5 && w[0] == 'H' && w[1] == 'e' && w[2] == 'l' && w[3] == 'l' && w[4] == 'o'
    requires |e| == 8 && e[0] == 'S' && e[1] == 'G' && e[2] == 'V' && e[3] == 's'
    requires e[4] == 'b' && e[5] == 'G' && e[6] == '8' && e[7] == '='
    ensures Base64.Encode(Utf8.Encode(w)) == e
  {
    HelloBytes(w);
    HelloDigits(e);
  }

  /** `Hello` has two character classes only, and `SGVsbG8=` has four. */
  lemma HelloClasses(w: string, e: string)
    requires |w| == 5 && w[0] == 'H' && w[1] == 'e' && w[2] == 'l' && w[3] == 'l' && w[4] == 'o'
    requires |e| == 8 && e[0] == 'S' && e[3] == 's' && e[6] == '8' && e[7] == '='
    ensures '\n' !in w && '\r' !in w && '\0' !in w && Utf8.Replacement !in w
    ensures '%' !in w && !LooksBase64(w) && |w| > 0
    ensures ClassCount(e) >= 3
  {
    assert HasUpper(e) && HasLower(e) && HasDigit(e);
    assert !HasDigit(w) && !HasSpecial(w);
  }

  /** Three rounds take `SGVsbG8=` to `'Hello'`: the first decodes it, the
      next two leave the plain word alone. */
  lemma Base64Example(w: string, e: string, printable: char -> bool)
    requires |w| == 5 && w[0] == 'H' && w[1] == 'e' && w[2] == 'l' && w[3] == 'l' && w[4] == 'o'
    requires |e| == 8 && e[0] == 'S' && e[1] == 'G' && e[2] == 'V' && e[3] == 's'
    requires e[4] == 'b' && e[5] == 'G' && e[6] == '8' && e[7] == '='
    ensures DecodeString(e, printable) == Quoted(w)
    ensures DecodeRounds(e, Rounds, printable) == Quoted(w)
  {
    ThreeRounds(e, printable);
    HelloClasses(w, e);
    HelloEncoding(w, e);
    DecodeStringBase64(w, printable);
    QuotedPlainFixed(w, printable);
  }

  /** `SGVsbG8=X` is cut to `SGVsbG8=` and decoded to `Hello`. */
  lemma Base64CutExample(w: string, e: string)
    requires |w| == 5 && w[0] == 'H' && w[1] == 'e' && w[2] == 'l' && w[3] == 'l' && w[4] == 'o'
    requires |e| == 8 && e[0] == 'S' && e[1] == 'G' && e[2] == 'V' && e[3] == 's'
    requires e[4] == 'b' && e[5] == 'G' && e[6] == '8' && e[7] == '='
    ensures Base64Stage(e + "X") == w
  {
    HelloClasses(w, e);
    HelloEncoding(w, e);
    Base64StageCut(w, "X");
  }
}
