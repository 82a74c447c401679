# Datalore assembler front end and bit-string helpers, in Dafny

This project models two parts of the assembler for the Datalore CPU, a 9-bit,
8-register machine:

- **util.py's helpers.** `clean_lines` trims source lines and drops blank lines
  and `//` comment lines. The integer to bit-string conversions are
  `get_half_imms`, `get_12_bit_memory_address`,
  `get_12_bit_twos_comp_negative`, `get_twos_complement_negative` and
  `get_mask_bits_rtl`.
- **assembler.py's front end.** This covers the opcode and register tables,
  the line validator `is_valid_instruction`, the split of cleaned lines into
  tags and raw instructions (`get_source_artifacts`), the lowering of a raw
  instruction into an intermediate form (`get_intermediate_instructions`), and
  the pass over all artifacts (`process_source_artifacts`).

Files:

- `common.dfy`: `Option`, `Result` and one `Error` constructor for each cause
  of an exception the source raises.
- `binary.dfy`: the Python string operations on binary digits that the helpers
  are built from. These are `bin(n)[2:]`, `int(s, 2)`, zero padding and the
  replace chain that swaps `0` and `1`. Their lemmas cover digit values,
  fixed-width fields and ones' complement.
- `text.dfy`: ASCII versions of `strip()`, `startswith()`, `s[1:]`,
  `split(' ')`, `upper()`, `isnumeric()` and `int()` of decimal digits.
- `util.dfy`: util.py. `clean_lines` and `get_mask_bits_rtl` are loops, so they
  are methods proved against a specification. The other helpers are
  straight-line conversions, so they are functions with lemmas.
- `assembler.dfy`: assembler.py's front end. `get_source_artifacts` and
  `process_source_artifacts` are loops, so they are methods proved against
  specification functions. The validator and the lowering are pure case
  analysis.

Exceptions become `Err` values. The tag map is a parameter. The helpers take
integers, that is, the value of the source's `int(...)` of its argument.
Negative inputs are modelled exactly: Python writes `bin(-5)` as `-0b101`, so
`bin(v)[2:]` keeps a leading `b`.

The validator's guard `len(tokens) != 3 or len(tokens) != 4` holds for every
token list, so the source as written rejects every instruction line. The line
parser therefore takes a `Guard`:

- `AsWritten` runs the validator as the source has it.
- `Corrected` runs it with the guard rejecting only lengths other than 3 and 4.

Lemmas describe both.

Where the prose description of the assembler and the code disagree, the model
follows the code:

- Lines are tokenised by `split(' ')` only, so a comma stays in its token and
  the documented `ADD R1, R2` syntax is rejected (`CommaSyntaxRejected`).
- `LDR`, `STR` and `BEQ` are not among the validator's accepted mnemonics, so
  no memory or branch line is accepted.
- A tag's name is the whole rest of the line, so a trailing `:` is kept.
- The validator compares the mnemonic with the upper-case lists before
  `upper()` is applied, so a lower-case mnemonic such as `add R1 R2` is
  rejected (`LowerCaseMnemonicRejected`).
- `get_mask_bits_rtl(n)` gives `n` ones followed by `8 - n` zeros. The
  examples in its comments show the opposite count.

## Model

| member | source | states |
|---|---|---|
| `Util.CleanLines` | util.py:1-10 | one pass over the lines returns exactly the stripped lines that are non-empty and do not start with `//`, in input order (the specification `Cleaned`); assembler.py:169-178 is a verbatim copy |
| `Util.CleanedWellFormed` | util.py:6-9 | every line clean_lines returns is stripped, non-empty and not a comment |
| `Util.CleanedSubsequence` | util.py:6-10 | the output is a subsequence of the stripped input: lines are only dropped, never reordered or invented |
| `Util.CleanedComplete` | util.py:7-9 | every input line whose stripped form is non-empty and not a comment appears in the output |
| `Util.CleanedIdempotent` | util.py:1-10 | cleaning cleaned lines changes nothing |
| `Util.HalfImmsInRange` | util.py:21-28 | for 0 <= v <= 255 the two halves are 4 binary digits each, high nibble first; together they are the zero-padded 8-digit binary of v, and they denote v / 16 and v % 16 |
| `Util.HalfImmsOutOfRange` | util.py:23-27 | v > 255 (and v <= -128, whose `-0b...` text is too long) raises "too large" |
| `Util.HalfImmsSmallNegative` | util.py:22-28 | -128 < v < 0 is not rejected, and the halves returned are not binary: they keep the `b` of `-0b` |
| `Util.MemoryAddressCorrect` | util.py:30-38 | 0 <= n <= 4095 gives 12 binary digits that int(s, 2) reads back as n; n < 0 raises "only positive numbers"; n > 4095 raises "too large" |
| `Util.TwosComp12Correct` | util.py:40-48 | for 1 <= n <= 4095 the result is the unpadded binary of 4096 - n, exactly 12 digits iff n <= 2048; n = 0 carries into a 13th digit and raises "too small"; n outside 0..4095 raises the address error |
| `Util.TwosComp8Correct` | util.py:50-65 | for 1 <= n <= 255 the result is 8 binary digits that denote 256 - n; n = 0, n > 255 and n <= -128 raise "too large"; -128 < n < 0 raises ValueError from int(s, 2) |
| `Util.TwosComp8Byte` | util.py:51-65 | for 0 <= n <= 255 the flipped padding reads back as 255 - n; n = 0 raises and 1 <= n gives the padded binary of 256 - n |
| `Util.TwosComp8Negative` | util.py:51-60 | a negative n raises: n <= -128 at the length test ("too large"), -128 < n < 0 with ValueError when int(s, 2) meets the flipped `b` |
| `Util.TwosCompOf56` | util.py:80-82 | the negation of 56 is `11001000`, i.e. 200 |
| `Util.GetMaskBitsRtl` | util.py:72-78 | for 1 <= n <= 8 the mask is n ones then 8 - n zeros, of value 256 - 2^(8-n); n <= 0 gives "0"; n > 8 raises TypeError, since Python's `2 ** -1` is a float and bin() rejects it |
| `Binary.BinCorrect` | util.py:23 | `bin(n)[2:]` is binary, denotes n, starts with 1 unless n = 0, and has the least length k with n < 2^k |
| `Binary.BinFits` | util.py:26-27 | `bin(n)[2:]` fits in k characters exactly when n < 2^k: this is what the helpers' length tests check |
| `Binary.ZeroPadValue` | util.py:24-25 | zero padding keeps a binary string binary and keeps its value |
| `Binary.FixedWidth` | util.py:34-37 | n < 2^w padded to w digits is exactly w binary digits denoting n |
| `Binary.FlipValue` | util.py:42-45 | the replace chain 0->x, 1->0, x->1 turns k binary digits of value v into k binary digits of value 2^k - 1 - v |
| `Binary.MaskDigits` | util.py:76-78 | the binary of 2^(n+k) - 2^k is n ones followed by k zeros |
| `Binary.BinOfValue` | util.py:45 | `bin(int(s, 2))[2:]` gives back a binary string that starts with 1 |
| `Text.StripShape` | util.py:7 | strip() returns a slice of its input with only whitespace cut off on either side, and has no whitespace at either end |
| `Text.StripIdempotent` | util.py:7 | strip() of a stripped line changes nothing |
| `Text.Split` | assembler.py:226 | split(' ') gives at least one token, no token holds a space, and joining the tokens with single spaces gives back the line |
| `Text.SplitThree` | assembler.py:226 | three space-free words separated by single spaces split into exactly those words |
| `Text.DropFirst` | assembler.py:221 | `s[1:]` is what follows the first character: putting that character back in front gives s; it is one shorter than s, and "" for "" |
| `Text.UpperShape` | assembler.py:235 | upper() keeps the length, leaves no lower-case letter, turns each lower-case letter into the same letter in upper case, and keeps every other character |
| `Text.UpperOfNoLower` | assembler.py:235 | upper() leaves a string without lower-case letters unchanged |
| `Text.UpperIdempotent` | assembler.py:235 | upper() applied twice equals upper() applied once |
| `Text.DecimalRoundTrip` | assembler.py:266 | `int(str(n)) == n` for every n >= 0 |
| `Text.DecimalLeadingZeros` | assembler.py:254 | leading zeros change neither whether int() accepts a string of digits nor the value it reads |
| `Text.PaddedDecimal` | assembler.py:266 | int() of str(n) with any number of leading zeros is n |
| `Assembler.OpcodesAreIndices` | assembler.py:5-12 | opcode i is the 3-digit binary of i, MEM = 000 through MOV = 111, so the eight opcodes are distinct |
| `Assembler.RegistersAreNumbered` | assembler.py:14-16 | there are eight distinct register names R0..R7, with the reserved R7 last |
| `Assembler.IsValidInstructionNeverHolds` | assembler.py:189-191 | as written, is_valid_instruction returns False for every token list |
| `Assembler.SplitOfWellFormedLine` | assembler.py:226 | `ADD R1 R2` splits into the tokens ADD, R1, R2 |
| `Assembler.GuardRejectsWellFormedLine` | assembler.py:189-198 | the tokens of `ADD R1 R2` are rejected by the guard as written and accepted with the corrected guard |
| `Assembler.ShapeAcceptedExactly` | assembler.py:196-214 | after the guard, a line is accepted iff its mnemonic is in the multi list, operand1 is a register, and operand2 is a register or `#` followed by one or more digits; the register-only and immediate-only lists are empty, so LDR, STR and BEQ are rejected |
| `Assembler.Accepts` | assembler.py:189-191 | whichever guard is used, an accepted token list has three or four tokens |
| `Assembler.AcceptedMnemonicsAreUpper` | assembler.py:196-235 | every mnemonic the validator accepts is already upper case, so `upper()` does not change it |
| `Assembler.GetSourceArtifacts` | assembler.py:216-239 | the loop returns exactly the specification `SourceArtifacts`: one artifact per line in order, or the first failing line's "Invalid instruction" |
| `Assembler.SourceArtifactsErrorPersists` | assembler.py:237-238 | once a line raises, the later lines do not matter |
| `Assembler.SourceArtifactsPerLine` | assembler.py:218-236 | get_source_artifacts succeeds iff every line parses, and then the i-th artifact is the i-th line's |
| `Assembler.SourceArtifactsFirstError` | assembler.py:237-238 | a failure names the first line that fails, and every earlier line parses |
| `Assembler.ParseLineTag` | assembler.py:219-223 | a line starting with `@` becomes one tag whose name is the rest of the line, unmodified (a trailing `:` is kept) |
| `Assembler.ParseLineAsWritten` | assembler.py:224-238 | as written, every line that is not a tag raises "Invalid instruction" |
| `Assembler.SourceArtifactsAsWritten` | assembler.py:216-239 | as written, get_source_artifacts succeeds iff every line is a tag line |
| `Assembler.ParseLineRoundTrip` | assembler.py:219-236 | with the corrected guard, a parsed line renders back to the same line: `@` plus the tag, or the tokens, including an optional fourth tag token, joined by spaces |
| `Assembler.LowerCaseMnemonicRejected` | assembler.py:196-238 | `add R1 R2` is rejected even with the corrected guard: the mnemonic is compared with the upper-case lists before upper() is applied |
| `Assembler.CommaSyntaxRejected` | assembler.py:226-238 | the documented form `ADD R1, R2` is rejected even with the corrected guard, because split(' ') leaves `R1,` as a token |
| `Assembler.LoweringYieldsOne` | assembler.py:241-269 | a successful lowering yields exactly one instruction, never a tag marker, with the raw instruction's mnemonic and first operand |
| `Assembler.LowerMulti` | assembler.py:264-269 | a multi mnemonic with `#` and the digits of n, leading zeros allowed, lowers to one immediate form with imm = n; `#` followed by anything but digits raises ValueError; any operand2 not starting with `#` gives one register form with src_reg = operand2 |
| `Assembler.LowerMemory` | assembler.py:253-258 | LDR lowers to one load and STR to one store, with addr = the value of the digits after operand2's first character, whatever that character is and with leading zeros allowed; anything but digits there raises ValueError |
| `Assembler.LowerBranch` | assembler.py:247-252 | a branch lowers iff its tag is present and in the tag map, and then to one branch form naming that tag |
| `Assembler.LowerBranchUndeclared` | assembler.py:111 | with tag_map as the source leaves it (never written), every branch raises "Invalid tag" |
| `Assembler.LowerUnknown` | assembler.py:270-271 | a mnemonic of no class raises |
| `Assembler.AcceptedLineLowers` | assembler.py:196-269 | every instruction line that the corrected validator accepts lowers without error to one register or immediate form with the line's mnemonic and destination register; a register form's source is operand2, a register name, and an immediate form's value is int() of the digits after `#` |
| `Assembler.ProcessSourceArtifacts` | assembler.py:273-280 | the loop returns exactly the specification `Processed`: the lowerings concatenated in order, or the first error |
| `Assembler.ProcessedErrorPersists` | assembler.py:275-277 | once an artifact raises, the later artifacts do not matter |
| `Assembler.ProcessedAppend` | assembler.py:273-280 | processing a + b is processing a and b and concatenating, with a's error taking precedence |
| `Assembler.ProcessedPerArtifact` | assembler.py:275-279 | processing succeeds iff every artifact lowers; then output i is artifact i's single lowering, a tag marker exactly for the tags, and it carries the tag's name |
| `Assembler.ProcessedBranchFails` | assembler.py:247-250 | with tag_map as the source leaves it, any program containing a branch fails to lower |
| `Assembler.FrontEndCorrected` | assembler.py:216-280 | with the corrected guard, every program that parses lowers without error to one instruction per line: a tag marker exactly for the `@` lines, and a register or immediate form for every other line |
| `Assembler.ProcessedAsWrittenOnlyEmpty` | assembler.py:241-280 | as written, process_source_artifacts returns only for the empty list; a leading tag raises for want of the marker's mnemonic |
| `Assembler.MissingReturnShown` | assembler.py:241-277 | `ADD R1 R2` raises as written, because the lowering returns None; with the list returned, it lowers to one register form |
| `Assembler.TagMarkerShown` | assembler.py:279 | the tag `loop` raises as written, because its marker is built without a mnemonic; with one, it lowers to its marker |

## Left out

- File I/O is not part of this model: `get_lines`, `get_cleaned_lines`, `write_machine_code` and `SOURCE_FILE`. The `__main__` print is modelled only as the value it prints (`TwosCompOf56`).
- The machine semantics in assembler.py's long docstring are left out. Nothing in the code executes them.
- The expander, encoder, tag resolver and branch patcher are not part of this model. They are not in the code.
- `SetIntermediateInstruction`, `RegMachineInstr`, `SetMachineInstr` and `MemMachineInstr` are declared but never built, so they are left out. In Python, the two `Set` classes would fail at class definition, because a field without a default follows one with a default.
- Strings are ASCII. Unicode whitespace in `strip()`, Unicode digits in `isnumeric()`, and the sign, space and underscore forms that `int()` accepts are left out. `Text.ParseDecimal` reads only plain ASCII digit strings and treats anything else as a `ValueError`.
- `Binary.ParseBin` reads only non-empty strings of `0` and `1`. These are the only strings the helpers pass it apart from the `b` of a negative input, which it rejects as Python does.
- The helpers take the integer their `int(...)` call would produce. A string argument that is not a number is not modelled.
- `Assembler.GetIntermediateInstructions` returns the list it builds, although the source has no `return`. The model as written is `Assembler.LowerArtifactAsWritten` and `Assembler.ProcessedAsWritten`; see Findings.
- `Assembler.IntermediateInstruction` gives the branch form the tag name, and the tag marker no mnemonic, as the source's constructor calls do. The `TypeError`s those calls would raise appear only in `Assembler.LowerArtifactAsWritten`.
- The parser is parametrised by `Guard`, so that it describes both the validator as written and the evidently intended one. The rest of the front end uses the corrected guard.
- The module-level `tag_map` is the constant `Assembler.TagMap`. It is empty because nothing writes it. The lowering takes the map as a parameter.

## Findings

| source | as written | input that shows it | evidently intended | confidence | as-written member | corrected member |
|---|---|---|---|---|---|---|
| assembler.py:190 | `len(tokens) != 3 or len(tokens) != 4` holds for every length, so is_valid_instruction always returns False and every instruction line raises "Invalid instruction" | the line `ADD R1 R2`, tokens `ADD`, `R1`, `R2` | reject only lengths other than 3 and 4 (`and`) | not executed | `Assembler.GuardRejectsWellFormedLine` | `Assembler.AcceptedLineLowers` |
| assembler.py:241-271 | get_intermediate_instructions never returns its list, so `+=` at line 277 meets None and raises TypeError | the raw instruction `ADD R1 R2` | `return intermediate_instructions` | not executed | `Assembler.MissingReturnShown` | `Assembler.ProcessedPerArtifact` |
| assembler.py:279 | `TagIntermediateInstruction(tagname=...)` leaves out the inherited `mnemonic` field, so every tag raises TypeError | the tag `loop` | build the marker with a mnemonic | not executed | `Assembler.TagMarkerShown` | `Assembler.ProcessedPerArtifact` |
