/** Column extraction (`extract_columns_from_lines`): every extracted line is
    split on `|`; a line the first filter rejects, or with fewer than five
    fields, is dropped; otherwise field 4 is the mnemonic and the fields from
    8 on are the operands, which are cleaned, truncated, decoded three times
    and joined with spaces; the second filter then decides whether
    `"<mnemonic> <operands>"` is emitted. */
module Pipeline {
  import opened Text
  import LineFilter
  import SuffixClean
  import StringDecoder
  import ResultFilter
  import Extraction

  /** What one extracted line contributes to the result. */
  datatype Outcome = Dropped | Emitted(text: string)

  /** `parts[8:]`: the operand fields, none when there are fewer than nine. */
  function Operands(parts: seq<string>): seq<string> {
    if |parts| >= 8 then parts[8..] else []
  }

  /** `truncate_suffix_elements` as a value. */
  function TruncatedAll(ts: seq<string>): seq<string> {
    seq(|ts|, i requires 0 <= i < |ts| => SuffixClean.Truncated(ts[i]))
  }

  /** One decoding round: `[decode_string(part) for part in ts]`. */
  function DecodeAll(ts: seq<string>, printable: char -> bool): seq<string> {
    seq(|ts|, i requires 0 <= i < |ts| => StringDecoder.DecodeString(ts[i], printable))
  }

  /** `n` decoding rounds over the whole list. */
  function DecodeAllRounds(ts: seq<string>, n: nat, printable: char -> bool): seq<string> {
    if n == 0 then ts else DecodeAll(DecodeAllRounds(ts, n - 1, printable), printable)
  }

  /** Decoding the list `n` times decodes each token `n` times on its own. */
  lemma {:induction false} DecodeAllRoundsPointwise(ts: seq<string>, n: nat, printable: char -> bool)
    ensures |DecodeAllRounds(ts, n, printable)| == |ts|
    ensures forall i :: 0 <= i < |ts| ==>
              DecodeAllRounds(ts, n, printable)[i] == StringDecoder.DecodeRounds(ts[i], n, printable)
  {
    if n > 0 {
      DecodeAllRoundsPointwise(ts, n - 1, printable);
    }
  }

  /** The operand text: the kept operands, truncated, decoded three times,
      empty results left out, joined with single spaces. */
  function SuffixText(ops: seq<string>, printable: char -> bool): string {
    var decoded := DecodeAllRounds(TruncatedAll(SuffixClean.Kept(ops)), StringDecoder.Rounds, printable);
    Join(NonEmpty(decoded), " ")
  }

  /** The body of the loop of `extract_columns_from_lines` for one line. */
  function ProcessLine(line: string, printable: char -> bool): Outcome {
    var parts := Split(line, '|');
    if LineFilter.ShouldFilterLine(parts) || |parts| < 5 then Dropped
    else
      var prefix := parts[4];
      var suffix := SuffixText(Operands(parts), printable);
      if ResultFilter.ShouldAppendResult(prefix, suffix) then Emitted(prefix + " " + suffix)
      else Dropped
  }

  /** `ProcessLine` for a fixed printable test, as a value. */
  function LineOutcome(printable: char -> bool): string -> Outcome {
    line => ProcessLine(line, printable)
  }

  /** `f` applied to every line, in order. */
  function Mapped(lines: seq<string>, f: string -> Outcome): (r: seq<Outcome>)
    ensures |r| == |lines|
  {
    seq(|lines|, i requires 0 <= i < |lines| => f(lines[i]))
  }

  /** The outcome of every line, in order. */
  function Outcomes(lines: seq<string>, printable: char -> bool): (r: seq<Outcome>)
    ensures |r| == |lines|
  {
    Mapped(lines, LineOutcome(printable))
  }

  /** The line an outcome contributes, if any. */
  function TextOf(r: Outcome): seq<string> {
    match r
    case Dropped => []
    case Emitted(o) => [o]
  }

  /** The texts of the emitted outcomes, in order. */
  function Texts(rs: seq<Outcome>): (out: seq<string>)
    ensures |out| <= |rs|
  {
    if rs == [] then [] else Texts(rs[..|rs| - 1]) + TextOf(rs[|rs| - 1])
  }

  /** The result lines for `lines`, in order. */
  function Collected(lines: seq<string>, printable: char -> bool): (out: seq<string>)
    ensures |out| <= |lines|
  {
    Texts(Outcomes(lines, printable))
  }

  /** One more line adds what its outcome contributes. */
  lemma CollectedSnoc(lines: seq<string>, i: nat, printable: char -> bool)
    requires i < |lines|
    ensures Collected(lines[..i + 1], printable) ==
              Collected(lines[..i], printable) + TextOf(ProcessLine(lines[i], printable))
  {
    var f := LineOutcome(printable);
    assert Mapped(lines[..i + 1], f) == Mapped(lines[..i], f) + [f(lines[i])];
  }

  /** The outcome of a line that passes the first filter, in terms of its
      operand text. */
  lemma ProcessLineKept(line: string, suffix: string, printable: char -> bool)
    requires var parts := Split(line, '|');
             !LineFilter.ShouldFilterLine(parts) && |parts| >= 5 &&
             suffix == Join(NonEmpty(DecodeAllRounds(TruncatedAll(SuffixClean.Kept(Operands(parts))),
                                                     StringDecoder.Rounds, printable)), " ")
    ensures var m := Split(line, '|')[4];
            ProcessLine(line, printable) ==
              if ResultFilter.ShouldAppendResult(m, suffix) then Emitted(m + " " + suffix) else Dropped
  {
  }

  /** `extract_columns_from_lines(lines)`. */
  method ExtractColumns(lines: seq<string>, printable: char -> bool) returns (resultLines: seq<string>)
    ensures resultLines == Collected(lines, printable)
  {
    resultLines := [];
    for i := 0 to |lines|
      invariant resultLines == Collected(lines[..i], printable)
    {
      CollectedSnoc(lines, i, printable);
      var parts := Split(lines[i], '|');
      if LineFilter.ShouldFilterLine(parts) {
        DroppedLines(lines[i], printable);
        assert ProcessLine(lines[i], printable) == Dropped;
        continue;
      }
      if |parts| >= 5 {
        var prefix := parts[4];
        var suffixParts := if |parts| >= 8 then parts[8..] else [];
        var filtered := SuffixClean.FilterSuffixParts(suffixParts);
        var truncated := SuffixClean.TruncateSuffixElements(filtered);
        assert truncated == TruncatedAll(filtered);
        var decoded := truncated;
        for round := 0 to StringDecoder.Rounds
          invariant decoded == DecodeAllRounds(truncated, round, printable)
        {
          decoded := DecodeAll(decoded, printable);
        }
        var suffix := Join(NonEmpty(decoded), " ");
        ProcessLineKept(lines[i], suffix, printable);
        if ResultFilter.ShouldAppendResult(prefix, suffix) {
          assert ProcessLine(lines[i], printable) == Emitted(prefix + " " + suffix);
          resultLines := resultLines + [prefix + " " + suffix];
        } else {
          assert ProcessLine(lines[i], printable) == Dropped;
        }
      } else {
        DroppedLines(lines[i], printable);
        assert ProcessLine(lines[i], printable) == Dropped;
      }
    }
    assert lines[..|lines|] == lines;
  }

  lemma {:induction false} TextsAppend(a: seq<Outcome>, b: seq<Outcome>)
    ensures Texts(a + b) == Texts(a) + Texts(b)
    decreases |b|
  {
    if b == [] {
      assert a + b == a;
    } else {
      var b' := b[..|b| - 1];
      assert (a + b)[..|a + b| - 1] == a + b';
      assert (a + b)[|a + b| - 1] == b[|b| - 1];
      TextsAppend(a, b');
    }
  }

  /** Lines are processed independently: the result for a concatenation is
      the concatenation of the results. */
  lemma CollectedAppend(a: seq<string>, b: seq<string>, printable: char -> bool)
    ensures Collected(a + b, printable) == Collected(a, printable) + Collected(b, printable)
  {
    var f := LineOutcome(printable);
    assert Mapped(a + b, f) == Mapped(a, f) + Mapped(b, f);
    TextsAppend(Mapped(a, f), Mapped(b, f));
  }

  lemma {:induction false} TextsMembers(rs: seq<Outcome>, o: string)
    ensures o in Texts(rs) <==> exists i :: 0 <= i < |rs| && rs[i] == Emitted(o)
  {
    if rs != [] {
      var n := |rs| - 1;
      var init := rs[..n];
      TextsMembers(init, o);
      assert Texts(rs) == Texts(init) + TextOf(rs[n]);
      if o in Texts(rs) && o !in Texts(init) {
        assert rs[n] == Emitted(o);
      }
      if o in Texts(init) {
        var i :| 0 <= i < n && init[i] == Emitted(o);
        assert rs[i] == init[i];
      }
      if exists i :: 0 <= i < |rs| && rs[i] == Emitted(o) {
        var i :| 0 <= i < |rs| && rs[i] == Emitted(o);
        if i < n {
          assert init[i] == rs[i];
        }
      }
    }
  }

  /** A result line is exactly the text some input line emits. */
  lemma CollectedMembers(lines: seq<string>, printable: char -> bool, o: string)
    ensures o in Collected(lines, printable) <==>
              exists i :: 0 <= i < |lines| && ProcessLine(lines[i], printable) == Emitted(o)
  {
    var rs := Outcomes(lines, printable);
    TextsMembers(rs, o);
    assert forall i :: 0 <= i < |lines| ==> rs[i] == ProcessLine(lines[i], printable);
    if exists i :: 0 <= i < |lines| && ProcessLine(lines[i], printable) == Emitted(o) {
      var i :| 0 <= i < |lines| && ProcessLine(lines[i], printable) == Emitted(o);
      assert rs[i] == Emitted(o);
    }
  }

  /** A line with fewer than five fields, or whose mnemonic the first filter
      rejects, contributes nothing. */
  lemma DroppedLines(line: string, printable: char -> bool)
    ensures var parts := Split(line, '|');
            |parts| < 5 || LineFilter.IsJump(parts[4]) || parts[4] in LineFilter.SkippedMnemonics
            || LineFilter.IsFree(parts[4])
            ==> ProcessLine(line, printable) == Dropped
  {
  }

  /** Every emitted line starts with its mnemonic and a space; the mnemonic
      holds no `|` and passed the first filter. */
  lemma EmittedHead(line: string, printable: char -> bool)
    requires ProcessLine(line, printable).Emitted?
    ensures var o := ProcessLine(line, printable).text;
            exists k :: 0 <= k < |o| && o[k] == ' ' && '|' !in o[..k] &&
              !LineFilter.IsJump(o[..k]) && o[..k] !in LineFilter.SkippedMnemonics &&
              !LineFilter.IsFree(o[..k])
  {
    var parts := Split(line, '|');
    var m := parts[4];
    var o := ProcessLine(line, printable).text;
    assert o[..|m|] == m;
    assert o[|m|] == ' ';
  }

  /** A text whose first word is not a jump does not start with `JMP`. */
  lemma HeadNotJump(o: string, k: nat)
    requires k < |o| && o[k] == ' ' && !LineFilter.IsJump(o[..k])
    ensures !StartsWith(o, "JMP")
  {
    if k >= 3 {
      assert o[..k][..3] == o[..3];
    }
  }

  /** Hence no emitted line starts with `JMP`. */
  lemma NoJumpEmitted(line: string, printable: char -> bool)
    requires ProcessLine(line, printable).Emitted?
    ensures !StartsWith(ProcessLine(line, printable).text, "JMP")
  {
    var o := ProcessLine(line, printable).text;
    EmittedHead(line, printable);
    var k :| 0 <= k < |o| && o[k] == ' ' && !LineFilter.IsJump(o[..k]);
    HeadNotJump(o, k);
  }

  /** No line of the result starts with `JMP`. */
  lemma NoJumpCollected(lines: seq<string>, printable: char -> bool)
    ensures forall o :: o in Collected(lines, printable) ==> !StartsWith(o, "JMP")
  {
    forall o | o in Collected(lines, printable) ensures !StartsWith(o, "JMP") {
      CollectedMembers(lines, printable, o);
      var i :| 0 <= i < |lines| && ProcessLine(lines[i], printable) == Emitted(o);
      NoJumpEmitted(lines[i], printable);
    }
  }

  /** A token decodes to nothing exactly when it was empty to begin with. */
  lemma TokenVanishes(t: string, printable: char -> bool)
    ensures StringDecoder.DecodeRounds(SuffixClean.Truncated(t), StringDecoder.Rounds, printable) == ""
            <==> t == ""
  {
    StringDecoder.DecodeRoundsEmpty(SuffixClean.Truncated(t), StringDecoder.Rounds, printable);
    SuffixClean.TruncatedEmpty(t);
  }

  /** The decoded operand list has an empty entry exactly where the kept
      operand list has one. */
  lemma DecodedEmptyAt(kept: seq<string>, printable: char -> bool)
    ensures |DecodeAllRounds(TruncatedAll(kept), StringDecoder.Rounds, printable)| == |kept|
    ensures forall i :: 0 <= i < |kept| ==>
              (DecodeAllRounds(TruncatedAll(kept), StringDecoder.Rounds, printable)[i] == "" <==> kept[i] == "")
  {
    var truncated := TruncatedAll(kept);
    DecodeAllRoundsPointwise(truncated, StringDecoder.Rounds, printable);
    forall i | 0 <= i < |kept|
      ensures DecodeAllRounds(truncated, StringDecoder.Rounds, printable)[i] == "" <==> kept[i] == ""
    {
      TokenVanishes(kept[i], printable);
    }
  }

  /** The operand text is empty exactly when every operand that survives the
      noise filter is itself empty. */
  lemma SuffixTextEmpty(ops: seq<string>, printable: char -> bool)
    ensures SuffixText(ops, printable) == "" <==>
              forall t :: t in ops && !SuffixClean.IsNoise(t) ==> t == ""
  {
    var kept := SuffixClean.Kept(ops);
    var decoded := DecodeAllRounds(TruncatedAll(kept), StringDecoder.Rounds, printable);
    DecodedEmptyAt(kept, printable);
    JoinNonEmptyIsEmpty(decoded);
    if forall i :: 0 <= i < |kept| ==> kept[i] == "" {
      forall t | t in ops && !SuffixClean.IsNoise(t) ensures t == "" {
        var i :| 0 <= i < |kept| && kept[i] == t;
      }
    }
  }

  /** The fields of a line of four empty fields, a mnemonic and three empty
      fields. */
  lemma MarkerSplit(m: string)
    requires '|' !in m
    ensures Split("||||" + m + "|||", '|') == ["", "", "", "", m, "", "", ""]
  {
    var xs := ["", "", "", "", m, "", "", ""];
    MarkerJoin(m);
    SplitJoin(xs, '|');
  }

  /** The same line built by joining its fields. */
  lemma MarkerJoin(m: string)
    ensures Join(["", "", "", "", m, "", "", ""], "|") == "||||" + m + "|||"
  {
    var tail := ["", "", ""];
    var s4 := [m] + tail;
    assert Join(s4, "|") == m + "|||" by {
      assert Join(tail, "|") == "||" by {
        JoinCons("", ["", ""], "|");
        JoinCons("", [""], "|");
      }
      JoinCons(m, tail, "|");
    }
    var s2 := [""] + ([""] + s4);
    assert Join(s2, "|") == "||" + m + "|||" by {
      JoinCons("", s4, "|");
      JoinCons("", [""] + s4, "|");
    }
    JoinCons("", s2, "|");
    JoinCons("", [""] + s2, "|");
    assert ["", "", "", "", m, "", "", ""] == [""] + ([""] + s2);
  }

  /** A line of four empty fields, a mnemonic and three empty fields (the
      shape of the block markers) gives the mnemonic and a space, whenever
      both filters let a mnemonic without operands through. */
  lemma MarkerShapedLine(line: string, m: string, printable: char -> bool)
    requires line == "||||" + m + "|||" && '|' !in m
    requires !LineFilter.ShouldFilterLine(["", "", "", "", m]) && ResultFilter.ShouldAppendResult(m, "")
    ensures ProcessLine(line, printable) == Emitted(m + " ")
  {
    var xs := ["", "", "", "", m, "", "", ""];
    MarkerSplit(m);
    assert Operands(xs) == [];
    assert SuffixText([], printable) == "" by {
      assert TruncatedAll(SuffixClean.Kept([])) == [];
      assert DecodeAll([], printable) == [];
    }
  }

  /** A mnemonic that starts with `Fu` and does not end in `E` is no jump,
      no housekeeping opcode and no `FREE` variant. */
  lemma FuNameNotFiltered(m: string)
    requires |m| >= 2 && m[0] == 'F' && m[1] == 'u' && m[|m| - 1] != 'E'
    ensures !LineFilter.ShouldFilterLine(["", "", "", "", m])
  {
    FuNameNoJumpOrFree(m);
    FuNameNotSkipped(m);
  }

  lemma FuNameNoJumpOrFree(m: string)
    requires |m| >= 2 && m[0] == 'F' && m[1] == 'u' && m[|m| - 1] != 'E'
    ensures !LineFilter.IsJump(m) && !LineFilter.IsFree(m)
  {
    AffixAt(m, "JMP", 0);
    AffixAt(m, "FREE", 1);
    AffixAt(m, "FREE", 3);
  }

  lemma FuNameNotSkipped(m: string)
    requires |m| >= 1 && m[0] == 'F'
    ensures m !in LineFilter.SkippedMnemonics
  {
  }

  /** The prefix families of the empty-operand test, in two groups: none of
      them starts with `Fu`. */
  lemma FuNameNotSendFetchRopeBw(m: string)
    requires |m| >= 2 && m[0] == 'F' && m[1] == 'u'
    ensures !StartsWith(m, "SEND_") && !StartsWith(m, "FETCH_") && !StartsWith(m, "ROPE_")
    ensures !StartsWith(m, "BW_")
  {
    AffixAt(m, "SEND_", 0);
    AffixAt(m, "FETCH_", 1);
    AffixAt(m, "ROPE_", 0);
    AffixAt(m, "BW_", 0);
  }

  lemma FuNameNotIsBindIssetPreUnset(m: string)
    requires |m| >= 2 && m[0] == 'F' && m[1] == 'u'
    ensures !StartsWith(m, "IS_") && !StartsWith(m, "BIND_") && !StartsWith(m, "ISSET_")
    ensures !StartsWith(m, "PRE_") && !StartsWith(m, "UNSET_")
  {
    AffixAt(m, "IS_", 0);
    AffixAt(m, "BIND_", 0);
    AffixAt(m, "ISSET_", 0);
    AffixAt(m, "PRE_", 0);
    AffixAt(m, "UNSET_", 0);
  }

  /** The assignment, `*_ARG` and `*_SILENCE` families end in `N`, `G` or
      `E`. */
  lemma FuNameNotAssignArgSilence(m: string)
    requires |m| >= 2 && m[0] == 'F' && m[1] == 'u'
    requires m[|m| - 1] != 'N' && m[|m| - 1] != 'G' && m[|m| - 1] != 'E'
    ensures !ResultFilter.IsAssign(m) && !EndsWith(m, "_ARG") && !EndsWith(m, "_SILENCE")
  {
    AffixAt(m, "ASSIGN", 0);
    AffixAt(m, "ASSIGN", 5);
    AffixAt(m, "_ARG", 3);
    AffixAt(m, "_SILENCE", 7);
  }

  /** A mnemonic that starts with `Fu` and ends in none of `N`, `G`, `E`
      belongs to no family of the empty-operand test. */
  lemma FuNameNotBroad(m: string)
    requires |m| >= 2 && m[0] == 'F' && m[1] == 'u'
    requires m[|m| - 1] != 'N' && m[|m| - 1] != 'G' && m[|m| - 1] != 'E'
    ensures !ResultFilter.Broad(m)
  {
    FuNameNotSendFetchRopeBw(m);
    FuNameNotIsBindIssetPreUnset(m);
    FuNameNotAssignArgSilence(m);
  }

  /** A mnemonic that starts with `Fu`, ends in none of `N`, `G`, `E` and
      has no `A` and no `Q` passes both filters without operands; the marker
      names are such mnemonics. */
  lemma MarkerNamePasses(m: string)
    requires |m| >= 2 && m[0] == 'F' && m[1] == 'u'
    requires m[|m| - 1] != 'N' && m[|m| - 1] != 'G' && m[|m| - 1] != 'E'
    requires 'A' !in m && 'Q' !in m
    ensures !LineFilter.ShouldFilterLine(["", "", "", "", m]) && ResultFilter.ShouldAppendResult(m, "")
  {
    FuNameNotFiltered(m);
    FuNameNotBroad(m);
    MissingCharNotContained(m, "ARRAY", 0);
    MissingCharNotContained(m, "EQUAL", 1);
  }

  /** The marker lines, as fields. */
  lemma MarkerFields()
    ensures Extraction.StartMarker == "||||" + "FunctionStart" + "|||"
    ensures Extraction.EndMarker == "||||" + "FunctionEnd" + "|||"
  {
  }

  /** The two marker names pass both filters without operands. */
  lemma MarkerNamesPass(m: string)
    requires m == "FunctionStart" || m == "FunctionEnd"
    ensures '|' !in m
    ensures !LineFilter.ShouldFilterLine(["", "", "", "", m])
    ensures ResultFilter.ShouldAppendResult(m, "")
  {
    MarkerNamePasses(m);
  }

  /** So the start and end markers of a block come out as their names
      followed by the space of the empty operand text. */
  lemma StartMarkerEmitted(line: string, printable: char -> bool)
    requires line == Extraction.StartMarker
    ensures ProcessLine(line, printable) == Emitted("FunctionStart" + " ")
  {
    MarkerFields();
    MarkerNamesPass("FunctionStart");
    MarkerShapedLine(line, "FunctionStart", printable);
  }

  lemma EndMarkerEmitted(line: string, printable: char -> bool)
    requires line == Extraction.EndMarker
    ensures ProcessLine(line, printable) == Emitted("FunctionEnd" + " ")
  {
    MarkerFields();
    MarkerNamesPass("FunctionEnd");
    MarkerShapedLine(line, "FunctionEnd", printable);
  }
}
