/** The second filter (`should_append_result`): after decoding, an
    instruction is dropped when its operand text is empty and its mnemonic
    belongs to a broad family of data-moving opcodes, or when its operand
    text is all digits and its mnemonic belongs to a narrower family. */
module ResultFilter {
  import opened Text

  /** Mnemonics dropped by exact name when the operand text is empty. */
  const BroadNames: set<string> :=
    {"OP_DATA", "ECHO", "CAST", "ADD", "SUB", "MUL", "DIV", "MOD", "RECV_INIT"}

  /** Mnemonics dropped by exact name when the operand text is all digits. */
  const NarrowNames: set<string> := {"OP_DATA", "RECV_INIT"}

  /** `^(ASSIGN.*|.*ASSIGN)$`. */
  predicate IsAssign(m: string) {
    StartsWith(m, "ASSIGN") || EndsWith(m, "ASSIGN")
  }

  /** The families of the first test: `CONCAT`, `SEND_*`, assignments, the
      broad names, `FETCH_*`, `ROPE_*`, `BW_*`, `IS_*`, `BIND_*`, `ISSET_*`,
      `PRE_*`, `UNSET_*`, `*_ARG` and `*_SILENCE`. */
  predicate Broad(m: string) {
    m == "CONCAT" || StartsWith(m, "SEND_") || IsAssign(m) || m in BroadNames
    || StartsWith(m, "FETCH_") || StartsWith(m, "ROPE_") || StartsWith(m, "BW_")
    || StartsWith(m, "IS_") || StartsWith(m, "BIND_") || StartsWith(m, "ISSET_")
    || StartsWith(m, "PRE_") || StartsWith(m, "UNSET_")
    || EndsWith(m, "_ARG") || EndsWith(m, "_SILENCE")
  }

  /** The families of the digit test: `CONCAT`, `SEND_*`, assignments, the
      narrow names, `FETCH_*`, `IS_*`, `BIND_*`, `UNSET_*`, `ROPE_*` and
      `*_ARG`. */
  predicate Narrow(m: string) {
    m == "CONCAT" || StartsWith(m, "SEND_") || IsAssign(m) || m in NarrowNames
    || StartsWith(m, "FETCH_") || StartsWith(m, "IS_") || StartsWith(m, "BIND_")
    || StartsWith(m, "UNSET_") || StartsWith(m, "ROPE_") || EndsWith(m, "_ARG")
  }

  /** `should_append_result(prefix, suffix)`: the three tests on an empty
      operand text, then the test on an all-digit one. */
  predicate ShouldAppendResult(prefix: string, suffix: string)
    ensures suffix != "" && !IsDigits(suffix) ==> ShouldAppendResult(prefix, suffix) {
    if (Broad(prefix) || Contains(prefix, "ARRAY") || Contains(prefix, "EQUAL")) && suffix == "" then false
    else if Narrow(prefix) && IsDigits(suffix) then false
    else true
  }

  /** Every family of the digit test is one of the empty test, so a
      mnemonic dropped for a digit operand is also dropped without one. */
  lemma NarrowIsBroad(m: string)
    ensures Narrow(m) ==> Broad(m)
  {
  }

  /** An empty operand text is dropped exactly for the broad families and
      for mnemonics that mention `ARRAY` or `EQUAL`. */
  lemma EmptySuffix(prefix: string)
    ensures !ShouldAppendResult(prefix, "") <==>
              Broad(prefix) || Contains(prefix, "ARRAY") || Contains(prefix, "EQUAL")
  {
  }

  /** An all-digit operand text is dropped exactly for the narrow families. */
  lemma DigitSuffix(prefix: string, suffix: string)
    requires IsDigits(suffix)
    ensures !ShouldAppendResult(prefix, suffix) <==> Narrow(prefix)
  {
  }

  /** A character of a prefix or suffix occurs in the string. */
  lemma AffixChar(m: string, p: string, j: nat)
    requires j < |p|
    ensures StartsWith(m, p) ==> p[j] in m
    ensures EndsWith(m, p) ==> p[j] in m
  {
    if StartsWith(m, p) {
      assert m[..|p|][j] == m[j];
    }
    if EndsWith(m, p) {
      assert m[|m| - |p|..][j] == m[|m| - |p| + j];
    }
  }

  /** Every narrow family spells an `_` or an `N` (`CONCAT`, `ASSIGN`). */
  lemma PlainNameNotNarrow(m: string)
    requires '_' !in m && 'N' !in m
    ensures !Narrow(m)
  {
    AffixChar(m, "SEND_", 4);
    AffixChar(m, "ASSIGN", 5);
    AffixChar(m, "FETCH_", 5);
    AffixChar(m, "IS_", 2);
    AffixChar(m, "BIND_", 4);
    AffixChar(m, "UNSET_", 5);
    AffixChar(m, "ROPE_", 4);
    AffixChar(m, "_ARG", 0);
    assert "CONCAT"[2] == 'N' && "OP_DATA"[2] == '_' && "RECV_INIT"[4] == '_';
  }

  /** The arithmetic, echo and cast mnemonics. */
  const PlainNames: set<string> := {"ECHO", "CAST", "ADD", "SUB", "MUL", "DIV", "MOD"}

  /** None of them spells an `_` or an `N`. */
  lemma PlainNamesSpelling(m: string)
    requires m in PlainNames
    ensures '_' !in m && 'N' !in m
  {
    if m == "ECHO" {
    } else if m == "CAST" {
    } else if m == "ADD" {
    } else if m == "SUB" {
    } else if m == "MUL" {
    } else if m == "DIV" {
    } else {
      assert m == "MOD";
    }
  }

  /** The arithmetic, echo and cast mnemonics are dropped without operands
      but kept with an all-digit operand text. */
  lemma PlainNamesKeepNumbers(m: string, suffix: string)
    requires m in PlainNames && IsDigits(suffix)
    ensures !ShouldAppendResult(m, "") && ShouldAppendResult(m, suffix)
  {
    assert m in BroadNames;
    PlainNamesSpelling(m);
    PlainNameNotNarrow(m);
  }

  /** `BW_*`, `ISSET_*` and `PRE_*` mnemonics that do not also end like an
      assignment or an argument opcode are dropped without operands but kept
      with an all-digit operand text. */
  lemma BroadPrefixesKeepNumbers(m: string, suffix: string)
    requires StartsWith(m, "BW_") || StartsWith(m, "ISSET_") || StartsWith(m, "PRE_")
    requires m[|m| - 1] != 'N' && m[|m| - 1] != 'G' && IsDigits(suffix)
    ensures !ShouldAppendResult(m, "") && ShouldAppendResult(m, suffix)
  {
    AffixAt(m, "BW_", 1);
    AffixAt(m, "ISSET_", 0);
    AffixAt(m, "ISSET_", 2);
    AffixAt(m, "PRE_", 0);
    assert !Narrow(m) by {
      NarrowFirstChars(m);
    }
  }

  /** `BEGIN_SILENCE`, `END_SILENCE` and the like are dropped without
      operands but kept with an all-digit operand text. */
  lemma SilenceKeepsNumbers(m: string, suffix: string)
    requires EndsWith(m, "_SILENCE") && (m[0] == 'E' || (m[0] == 'B' && m[1] == 'E'))
    requires IsDigits(suffix)
    ensures !ShouldAppendResult(m, "") && ShouldAppendResult(m, suffix)
  {
    AffixAt(m, "_SILENCE", 7);
    assert !Narrow(m) by {
      NarrowFirstChars(m);
    }
  }

  /** What the narrow families fix about the first two and the last
      characters of a mnemonic. */
  lemma NarrowFirstChars(m: string)
    requires |m| >= 2
    ensures Narrow(m) ==>
              m[0] in {'C', 'S', 'A', 'O', 'R', 'F', 'U'} || m[|m| - 1] in {'N', 'G'} ||
              (m[0] == 'I' && m[1] == 'S' && |m| >= 3 && m[2] == '_') || (m[0] == 'B' && m[1] == 'I')
  {
    if m == "CONCAT" || m in NarrowNames {
    } else {
      AffixAt(m, "SEND_", 0);
      AffixAt(m, "ASSIGN", 0);
      AffixAt(m, "ASSIGN", 5);
      AffixAt(m, "FETCH_", 0);
      AffixAt(m, "IS_", 0);
      AffixAt(m, "IS_", 1);
      AffixAt(m, "IS_", 2);
      AffixAt(m, "BIND_", 0);
      AffixAt(m, "BIND_", 1);
      AffixAt(m, "UNSET_", 0);
      AffixAt(m, "ROPE_", 0);
      AffixAt(m, "_ARG", 3);
    }
  }
}
