/** The first line filter (`should_filter_line`): a dump line, split on `|`,
    is dropped as a whole when its mnemonic (field 4) is a jump, one of a
    fixed set of housekeeping opcodes, or a `FREE` variant. */
module LineFilter {
  import opened Text

  /** The mnemonics dropped by exact name. */
  const SkippedMnemonics: set<string> :=
    {"NOP", "BOOL", "BOOL_NOT", "COUNT", "RECV", "STRLEN", "EXIT", "CASE", "TYPE_CHECK", "THROW"}

  /** `re.match(r'^JMP.*', m)`. */
  predicate IsJump(m: string) {
    StartsWith(m, "JMP")
  }

  /** `re.match(r'(^FREE$|^FREE.*|.*FREE$)', m)`. */
  predicate IsFree(m: string) {
    m == "FREE" || StartsWith(m, "FREE") || EndsWith(m, "FREE")
  }

  /** `should_filter_line(parts)`. */
  predicate ShouldFilterLine(parts: seq<string>)
  {
    |parts| >= 5 && (IsJump(parts[4]) || parts[4] in SkippedMnemonics || IsFree(parts[4]))
  }

  /** A line is dropped exactly when it has a mnemonic field that starts
      with `JMP`, is a housekeeping opcode, or starts or ends with `FREE`:
      the `^FREE$` alternative adds nothing. */
  lemma ShouldFilterLineIff(parts: seq<string>)
    ensures ShouldFilterLine(parts) <==>
              |parts| >= 5 &&
              (StartsWith(parts[4], "JMP") || parts[4] in SkippedMnemonics ||
               StartsWith(parts[4], "FREE") || EndsWith(parts[4], "FREE"))
  {
    if |parts| >= 5 && parts[4] == "FREE" {
      assert parts[4][..4] == "FREE";
    }
  }
}
