# PHP opcode dump post-processing, modelled in Dafny

`2_process.py` turns VLD opcode dumps of PHP scripts into one compact
instruction listing per script. It runs in four stages:

1. **Block extraction** (`extract_lines_from_file`). The dump is read line by
   line. Each function block is cut out between the fixed column header
   `|line|#*|||op|fetch|ext|return|operands` and a lone `|`. Each header
   becomes the marker `||||FunctionStart|||`, each closer of an open block
   becomes `||||FunctionEnd|||`, and lines outside a block are dropped.
2. **Line filter** (`should_filter_line`). A content line is split on `|`.
   Field 4 is the mnemonic. The whole line is dropped when that mnemonic is
   a jump, one of ten housekeeping opcodes, or a `FREE` variant.
3. **Operand clean-up.**
   - Fields 8 onwards are the operands.
   - `filter_suffix_parts` drops noise tokens: temporaries, commas, `<true>`
     and the like, jump targets, and the leaked `%2Fsamples` path.
   - `truncate_suffix_elements` collapses runs of `+` and caps each token at
     120 characters.
   - `decode_string` is applied three times to every token. It removes the
     disassembler's apostrophes, tries URL decoding, and then tries Base64
     decoding behind a character-class heuristic. It re-quotes the result.
4. **Result filter** (`should_append_result`). The mnemonic and the
   space-joined non-empty decoded tokens form `"<mnemonic> <operands>"`. The
   line is kept unless it lacks operands its mnemonic needs, or its operand
   text is a bare number that is meaningless for that mnemonic.

## Module layout

- **Text.** Character-class tests, prefixes and suffixes, `str.split`,
  `str.join`, and collapsing runs of a character.
- **Utf8, Percent, Base64.** The library decoders the pipeline calls:
  - `bytes.decode('utf-8', errors='replace')`;
  - `urllib.parse.unquote_plus`;
  - `base64.b64decode` in its non-validating mode.

  Each decoder comes with an encoder, and the round trip between the two is
  proved.
- **Extraction, LineFilter, SuffixClean, StringDecoder, ResultFilter,
  Pipeline.** One module per function of the core. Pipeline holds
  `extract_columns_from_lines` and the properties of the whole chain.

## Form of the model

The four loops of the source are methods with loop invariants:
`extract_lines_from_file` (2_process.py:13), `filter_suffix_parts` (line 46),
`truncate_suffix_elements` (line 66) and `extract_columns_from_lines`
(line 193). Inside the last one, the three decoding rounds of lines 212-213
are an inner loop with its own invariant, and the rest of the per-line body is
a function. Three of the methods are proved equal to a specification function written by recursion on
the last element, and the properties are proved about those functions.
`truncate_suffix_elements` is proved position by position against the
per-token function `SuffixClean.Truncated`.

`decode_string`, `should_filter_line` and `should_append_result` compute
without state, so they are functions.

`str.isprintable` is the parameter `printable: char -> bool` throughout.

## Output of instructions without operands

`extract_columns_from_lines` always writes `f"{prefix} {suffix}"`
(2_process.py:218). So a kept instruction without operands keeps its trailing
space, and the block markers come out as `FunctionStart ` and `FunctionEnd `.
`Pipeline.StartMarkerEmitted` and `Pipeline.EndMarkerEmitted` state this.

## Model

| member | source | states |
|---|---|---|
| Extraction.ExtractLines | 2_process.py:8-30 | The scan over the lines returns exactly `Extracted(lines, false)`: the marker-and-content sequence that the block state machine defines, starting outside any block. |
| Extraction.Extracted | 2_process.py:13-28 | Every input line contributes at most one output line. |
| Extraction.ExtractedAppend | 2_process.py:13-28 | Extraction is a left-to-right fold. Extracting `a + b` is extracting `a`, then extracting `b` from the block state `a` left behind. |
| Extraction.RecordingAfterIsOpen | 2_process.py:16-25 | After a prefix of the file, a block is open exactly when some header occurs with no lone `\|` after it. |
| Extraction.ContentLine | 2_process.py:27-28 | A line that is neither header nor closer is copied verbatim, in place, exactly when a block is open before it; it does not change the state. |
| Extraction.NoHeaderNothing | 2_process.py:10-28 | A dump without the header line yields nothing and leaves no block open. |
| Extraction.NoSentinelCopied | 2_process.py:16-25 | Neither the header nor the lone `\|` ever appears in the output: both are consumed. |
| Extraction.MarkersFollowRecording | 2_process.py:16-28 | Read as a bracket sequence, the output's markers are well formed: no end marker without an open start. After the whole file, a start is left unmatched exactly when the scanner is still recording. |
| Extraction.EndMarkersSeparated | 2_process.py:21-25 | Every end marker in the output has a start marker before it, and between any two end markers there is a start marker. So an end marker is never emitted twice for one block. |
| LineFilter.ShouldFilterLine | 2_process.py:33-40 | The decision of line 38 on field 4, for lines of at least five fields. Its properties are stated by `LineFilter.ShouldFilterLineIff` and `Pipeline.DroppedLines`. |
| LineFilter.ShouldFilterLineIff | 2_process.py:33-40 | A line is dropped exactly when it has a field 4 that starts with `JMP`, is one of the ten housekeeping names, or starts or ends with `FREE`. The `^FREE$` alternative adds nothing. |
| SuffixClean.Kept | 2_process.py:46-59 | The kept tokens are tokens of the input, and none of them is noise. Every non-noise input token is kept. |
| SuffixClean.KeptAppend | 2_process.py:46-59 | Filtering is per token and order preserving: filtering `a + b` is filtering `a` followed by filtering `b`. |
| SuffixClean.FilterSuffixParts | 2_process.py:43-60 | The loop with its five `continue` tests returns exactly the non-noise tokens, in their order. |
| SuffixClean.Truncated | 2_process.py:68-73 | A token after the `+` collapse and the cap is at most 120 characters long and has no `++`. It is a prefix of the collapsed token. It is exactly its first 120 characters when the collapsed token is longer, and the whole collapsed token otherwise. |
| SuffixClean.TruncatedEmpty | 2_process.py:68-73 | A token is truncated to the empty string exactly when it is empty. |
| SuffixClean.TruncatedFixed | 2_process.py:68-73 | A token of at most 120 characters without `++` is left unchanged. |
| SuffixClean.TruncatedIdempotent | 2_process.py:63-74 | Truncating twice is truncating once. |
| SuffixClean.TruncatedLong | 2_process.py:70-71 | A token longer than 120 characters without `++` is cut to exactly its first 120 characters. |
| SuffixClean.TruncateSuffixElements | 2_process.py:63-74 | The loop returns one token per input token, in the same order, each the truncation of its input. |
| Text.Split | 2_process.py:194 | `line.split('\|')` yields at least one field, and no field contains the separator. |
| Text.JoinSplit | 2_process.py:194 | Joining the fields of a split with the separator gives back the line. |
| Text.SplitJoin | 2_process.py:194 | Splitting a join of separator-free fields gives back the fields. |
| Text.NonEmpty | 2_process.py:216 | The non-empty filter keeps only non-empty pieces of the input, and it keeps every non-empty piece; order and multiplicity are stated by `Text.NonEmptyAppend`. |
| Text.NonEmptyAppend | 2_process.py:216 | The filter works piece by piece: the kept pieces of `a + b` are those of `a` followed by those of `b`. So order and repetitions are kept. |
| Text.JoinNonEmptyIsEmpty | 2_process.py:216 | The joined operand text is empty exactly when every decoded token is empty. |
| Text.CollapseRuns | 2_process.py:68 | `re.sub(r'\+{2,}', '+', t)` leaves no doubled `+`, keeps the characters other than `+` in order, and is no longer than its input. |
| Text.CollapseRunsEnds | 2_process.py:68 | Collapsing a non-empty string keeps its first and its last character. |
| Text.CollapseRunsIdentity | 2_process.py:68 | Collapsing a string without doubled `+` changes nothing. |
| Text.CollapseRunsPair | 2_process.py:68 | Two adjacent `+` anywhere in a string collapse into one `+` in place. With `CollapseRunsIdentity`, every run of `+` becomes a single `+` and nothing else changes. |
| Text.CollapseRunsAppend | 2_process.py:68 | Where no run straddles the seam, collapsing a concatenation collapses each side. |
| Text.ReplaceChar | 2_process.py:106 | `str.replace` of one character replaces every occurrence and changes nothing else. |
| Utf8.Decode | 2_process.py:134 | Decoding with substitution yields at most one character per byte. |
| Utf8.DecodeEncode | 2_process.py:134 | Decoding the UTF-8 encoding of any string gives the string back, with no substitution. |
| Utf8.DecodeAscii | 2_process.py:134 | ASCII bytes decode one-to-one to the same code points. |
| Percent.UnquoteToBytes | 2_process.py:101 | Percent-unquoting an ASCII string yields at most one byte per character. |
| Percent.UnquoteToBytesEncode | 2_process.py:101 | Unquoting the `%XX` encoding of any bytes gives the bytes back. |
| Percent.UnquotePlus | 2_process.py:101 | `unquote_plus` never lengthens its input. Its meaning is stated by `Percent.UnquotePlusRoundTrip` and `Percent.UnquotePlusNoEscape`. |
| Percent.UnquoteRunsAscii | 2_process.py:101 | On an all-ASCII string, `unquote` is UTF-8 decoding of the unquoted bytes. |
| Percent.UnquotePlusRoundTrip | 2_process.py:101 | `unquote_plus` inverts percent-encoding of the UTF-8 bytes of any string. |
| Percent.UnquotePlusNoEscape | 2_process.py:101 | Without `%`, `unquote_plus` only turns `+` into spaces. |
| Base64.Decoding | 2_process.py:134 | A successful non-validating decode yields no more bytes than there are characters read. |
| Base64.Decode | 2_process.py:134 | `b64decode` with its defaults: a successful decode yields no more bytes than there are characters. A failure is `None`. Its meaning is stated by `Base64.DecodeEncode`. |
| Base64.DecodeEncode | 2_process.py:134 | `b64decode` inverts standard padded Base64 encoding of any bytes. |
| Base64.EncodeAlphabet | 2_process.py:127 | Every character of a Base64 encoding lies in the alphabet the heuristic admits. |
| StringDecoder.StripApostrophes | 2_process.py:84-87 | The first character is removed exactly when it is an apostrophe. Then one more character is removed from the end exactly when what is left ends with an apostrophe. The result is the contiguous rest. |
| StringDecoder.StripPlain | 2_process.py:84-87 | A string neither starting nor ending with an apostrophe is not changed. |
| StringDecoder.StripQuoted | 2_process.py:84-87 | Stripping undoes the quoting of the previous round, and a quoted value is never empty nor all digits. |
| StringDecoder.TrimCutEscape | 2_process.py:94-98 | Any string whose length is not 119 is unchanged. A 119-character string loses its last character when that is `%`. Otherwise it loses its last two when the second-to-last is `%`. Otherwise it is unchanged. |
| StringDecoder.CutLengthNotEscapes | 2_process.py:94-98 | No run of whole `%XX` escapes is 119 long, so the repair never touches a complete percent-encoding. |
| StringDecoder.KeepPrintable | 2_process.py:108 | The kept characters are printable, and none is a tab or U+FFFD. They come from the input, and a fully printable input is kept whole. |
| StringDecoder.KeepPrintableAppend | 2_process.py:108 | The filter works character by character, in order: the result for `a + b` is the result for `a` followed by the result for `b`. |
| StringDecoder.KeepPrintableChar | 2_process.py:108 | A single character survives exactly when it is printable and is neither a tab nor U+FFFD. |
| StringDecoder.CleanUrlDecoded | 2_process.py:102-108 | After the URL clean-up no newline, carriage return, tab, U+FFFD or unprintable character remains, and the text is no longer. |
| StringDecoder.CleanUrlDecodedAround | 2_process.py:102-108 | A single newline, carriage return or space becomes one space, which survives exactly when a space is printable. This holds where the text on either side does not end or start with a line break, and each side is cleaned on its own. |
| StringDecoder.CleanUrlDecodedNewlineRun | 2_process.py:103-106 | Two consecutive newlines between such text are cleaned exactly like a single space. |
| StringDecoder.CleanUrlDecodedFixed | 2_process.py:102-108 | Clean-up leaves text that is already printable and single-line unchanged. |
| StringDecoder.SpacedLines | 2_process.py:141 | Newline and carriage return become spaces, position by position; nothing else changes. |
| StringDecoder.SpacedLinesFixed | 2_process.py:141 | A single-line text is left unchanged. |
| StringDecoder.RoundDown4 | 2_process.py:129-130 | `len(s) & ~3` is the largest multiple of 4 not above the length. |
| StringDecoder.RoundDownWhole | 2_process.py:129-130 | A length that is already a multiple of 4 is kept. |
| StringDecoder.UrlStage | 2_process.py:90-110 | Without a `%`, or below three characters, the string is unchanged. Otherwise the result has no line break and only accepted characters. When the decoded text is already clean, `StringDecoder.DecodeStringUrl` (unquoted tokens) and `StringDecoder.DecodeStringUrlQuoted` (quoted tokens) give the exact result of the round. Otherwise `StringDecoder.CleanUrlDecodedAround`, `StringDecoder.CleanUrlDecodedNewlineRun` and `StringDecoder.KeepPrintableAppend` describe the clean-up piece by piece. |
| StringDecoder.Base64Stage | 2_process.py:116-144 | A string that fails the gate is unchanged. Otherwise the result is the string cut to a multiple of 4, or a decoded text without newline, carriage return, NUL or U+FFFD. `StringDecoder.Base64Fallback` and `StringDecoder.Base64StageDecodes` say which, for every length: the decode is tried on the string cut to a multiple of 4. `StringDecoder.Base64StageCut` shows that up to three stray characters after an encoding are cut away. |
| StringDecoder.DecodeString | 2_process.py:77-146 | Empty and all-digit tokens come back unchanged. Every other token comes back wrapped in apostrophes. `StringDecoder.DecodeStringBase64` and `StringDecoder.DecodeStringPercent` give the round trips. |
| StringDecoder.DecodeStringShape | 2_process.py:77-146 | Empty and all-digit tokens are returned as they are. Every other token comes back wrapped in apostrophes. |
| StringDecoder.QuotedPlainFixed | 2_process.py:77-146 | A quoted value with no `%` that fails the Base64 heuristic decodes to itself, as with `'hello'`. |
| StringDecoder.DecodeStringNoEscape | 2_process.py:84-146 | A token without `%` and with no apostrophe at either end goes straight to the Base64 stage and is quoted. |
| StringDecoder.Base64Fallback | 2_process.py:116-139 | The Base64 stage changes only tokens that pass the heuristic. When decoding fails, or the text holds U+FFFD or NUL, the token comes back cut to a multiple of 4. |
| StringDecoder.EncodedGate | 2_process.py:116-127 | A Base64 encoding passes the gate exactly when it is non-empty and shows at least three of the four character classes. |
| StringDecoder.EncodedShape | 2_process.py:116-130 | A Base64 encoding with three character classes passes the heuristic. It needs no cut, and it has no `%`, no apostrophe at either end, and not all digits. |
| StringDecoder.Base64StageDecodes | 2_process.py:129-142 | When a heuristic-passing token, cut to a multiple of 4 by `len & ~3`, decodes cleanly, the stage returns the decoded text with line breaks turned into spaces. |
| StringDecoder.Base64StageCut | 2_process.py:129-142 | A heuristic-passing encoding of single-line, NUL-free text followed by up to three alphabet characters decodes to the text: the cut drops the extra characters. |
| StringDecoder.GateAppend | 2_process.py:116-130 | Up to three alphabet characters appended to a string of whole quanta that passes the heuristic keep it passing, and the cut removes exactly them. |
| StringDecoder.Base64StageRoundTrip | 2_process.py:116-142 | The Base64 stage recovers any single-line, NUL-free text from its Base64 encoding when the encoding passes the heuristic. |
| StringDecoder.DecodeStringBase64 | 2_process.py:77-146 | One round decodes such a Base64 token to the quoted original text. |
| StringDecoder.DecodeStringBase64Quoted | 2_process.py:77-146 | The same holds for the Base64 token between apostrophes, as rounds after the first receive it. |
| StringDecoder.PercentEncodedShape | 2_process.py:90-98 | A percent-encoding is eligible for URL decoding, starts with `%`, and is never 119 long. |
| StringDecoder.DecodeStringUrl | 2_process.py:84-110 | An unquoted token of at least three characters that contains a `%` decodes in one round to its URL-decoded form between apostrophes. This holds when that form (taken after the cut of a 119-character token) is printable, single-line and not Base64-like. |
| StringDecoder.DecodeStringUrlQuoted | 2_process.py:84-110 | The same holds for such a token between apostrophes: `'a%20b'` decodes to `'a b'`. |
| StringDecoder.DecodeStringPercent | 2_process.py:90-110 | One round recovers any printable, single-line, non-Base64-like text from its percent-encoding. |
| StringDecoder.DecodeRoundsEmpty | 2_process.py:212-213 | After any number of rounds a token is empty exactly when it was empty. |
| StringDecoder.DecodeRoundsDigits | 2_process.py:80-81 | An all-digit token survives every round unchanged. |
| StringDecoder.ThreeRounds | 2_process.py:212-213 | The three rounds are `decode_string` applied three times in sequence. |
| StringDecoder.PlainRoundsStable | 2_process.py:212-213 | Once a round yields a quoted value that is not `%`-bearing and not Base64-like, further rounds do not change it. |
| StringDecoder.PercentExample | 2_process.py:212-213 | `%2561` becomes `'%61'` after one round and `'a'` after the three rounds. |
| StringDecoder.Base64Example | 2_process.py:212-213 | `SGVsbG8=` becomes `'Hello'` after one round and stays so after three. |
| StringDecoder.Base64CutExample | 2_process.py:129-142 | `SGVsbG8=X` is cut to `SGVsbG8=` and the Base64 stage gives `Hello`. |
| ResultFilter.ShouldAppendResult | 2_process.py:149-188 | Operand text that is neither empty nor all digits is always kept. The exact conditions are `ResultFilter.EmptySuffix` and `ResultFilter.DigitSuffix`. |
| ResultFilter.NarrowIsBroad | 2_process.py:152-186 | Every mnemonic of the digit-operand rule is also one of the empty-operand rule. |
| ResultFilter.EmptySuffix | 2_process.py:152-173 | With no operands, an instruction is dropped exactly when its mnemonic is in the broad family, or contains `ARRAY` or `EQUAL`. |
| ResultFilter.DigitSuffix | 2_process.py:175-186 | With an all-digit operand text, an instruction is dropped exactly when its mnemonic is in the narrow family. |
| ResultFilter.PlainNamesKeepNumbers | 2_process.py:152-186 | `ECHO`, `CAST`, `ADD`, `SUB`, `MUL`, `DIV` and `MOD` are dropped without operands but kept with a numeric operand. |
| ResultFilter.BroadPrefixesKeepNumbers | 2_process.py:152-186 | `BW_*`, `ISSET_*` and `PRE_*` mnemonics (not ending like an assignment or argument opcode) are dropped without operands but kept with a numeric operand. |
| ResultFilter.SilenceKeepsNumbers | 2_process.py:152-186 | `BEGIN_SILENCE`-like and `END_SILENCE`-like mnemonics are dropped without operands but kept with a numeric operand. |
| Pipeline.ExtractColumns | 2_process.py:191-221 | The loop returns exactly `Collected(lines)`: the emitted outcome of each line in order. |
| Pipeline.Collected | 2_process.py:192-221 | Every input line yields at most one output line. |
| Pipeline.CollectedAppend | 2_process.py:193-219 | Lines are processed independently and in order: the result for `a + b` is the result for `a` followed by the result for `b`. |
| Pipeline.CollectedMembers | 2_process.py:193-219 | A line is in the result exactly when some input line's processing emits it. |
| Pipeline.DecodeAllRoundsPointwise | 2_process.py:211-213 | The three rounds over the token list decode each token independently, keeping count and order. |
| Pipeline.ProcessLine | 2_process.py:194-219 | The loop body for one line. Its outcome is stated by `Pipeline.ProcessLineKept` and `Pipeline.DroppedLines`: lines of at least five fields that pass the line filter give `mnemonic + " " + operand text` when `should_append_result` accepts, and all other lines give nothing. `Pipeline.EmittedHead` describes the shape of the emitted text. |
| Pipeline.ProcessLineKept | 2_process.py:200-219 | For a line with at least five fields that passes the line filter, the outcome is `mnemonic + " " + operand text` exactly when `should_append_result` accepts that pair. |
| Pipeline.DroppedLines | 2_process.py:196-201 | Lines with fewer than five fields, jumps, the ten housekeeping opcodes (`NOP` among them) and `FREE` variants produce nothing. |
| Pipeline.EmittedHead | 2_process.py:200-218 | Every emitted line starts with a `\|`-free mnemonic, followed by a space, that the line filter lets through. |
| Pipeline.NoJumpEmitted | 2_process.py:197-218 | No emitted line starts with `JMP`. |
| Pipeline.NoJumpCollected | 2_process.py:191-221 | No line of the result starts with `JMP`. |
| Pipeline.TokenVanishes | 2_process.py:208-216 | A kept token drops out of the operand text after truncation and three rounds exactly when it was empty. |
| Pipeline.DecodedEmptyAt | 2_process.py:208-216 | Truncation and the three rounds keep the token count, and make exactly the empty tokens empty. |
| Pipeline.SuffixTextEmpty | 2_process.py:204-216 | The operand text is empty exactly when every non-noise operand field is empty. |
| Pipeline.MarkerSplit | 2_process.py:194 | A marker-shaped line splits into eight fields, with the name in field 4. |
| Pipeline.MarkerShapedLine | 2_process.py:194-219 | A marker-shaped line whose name passes both filters without operands comes out as the name and a space. |
| Pipeline.MarkerNamePasses | 2_process.py:197-218 | A name starting with `Fu` that avoids the letters and endings the filters look for passes both filters without operands. |
| Pipeline.StartMarkerEmitted | 2_process.py:217-218 | The start marker line comes out as `FunctionStart `. |
| Pipeline.EndMarkerEmitted | 2_process.py:217-218 | The end marker line comes out as `FunctionEnd `. |

## Left out

- `main` and `print_progress_bar` (2_process.py:224-271) are not modelled. They handle directory listing, file writing, the progress bar and the success count.
- The `open` call and `line.strip()` (2_process.py:12-14) are not modelled. The file is given as its lines, already stripped.
- The `print` diagnostics (2_process.py:112, 144) are not modelled. They are output only and do not change the result.
- 1_to-opcode.py, which runs the disassembler, is not part of this model.
- `str.isprintable` is the parameter `printable`; Unicode's printable table is not modelled.
- `str.isdigit` and `\d` are modelled as ASCII digits only. Python's `str.isdigit` also accepts other Unicode digits, superscripts among them, and `\d` accepts other Unicode decimal digits.
- Utf8.Decode: the decoder emits one U+FFFD per undecodable byte. CPython emits one U+FFFD per maximal invalid subsequence. The core only tests for U+FFFD or deletes every U+FFFD, so the result of `decode_string` is the same.
- Python's `$` also matches before a final newline. The model reads it as end of string, because fields never contain a newline: lines come from file iteration and are stripped.
- The `except` branch of the URL stage (2_process.py:111-113) is not modelled as a separate path. `unquote_plus` on a `str` with `errors='replace'` does not raise.
- A Base64 decoding error (2_process.py:143-144) is the `None` result of `Base64.Decode`, after which the truncated token is quoted.
- UrlStage: no single lemma gives the whole result of a round whose URL-decoded text still needs cleaning (line breaks, tabs, U+FFFD or unprintable characters). For such text the clean-up is stated piece by piece: per character (`KeepPrintableAppend`, `KeepPrintableChar`), per separator (`CleanUrlDecodedAround`) and per newline run (`CleanUrlDecodedNewlineRun`). A URL-decoded text that itself passes the Base64 heuristic is also outside the exact round lemmas, because the Base64 stage then runs on it.
- Extraction.MarkersFollowRecording: requires that no input line equals the end marker text `||||FunctionEnd|||`. Such a content line would be copied verbatim and read as an end marker.
- Extraction.EndMarkersSeparated: the same requirement, for the same reason.
