# Advent of Code 2024 solvers, days 1-5 and 7, in Dafny

This project models the puzzle solvers of a Rust Advent of Code 2024
crate, together with the byte-level helpers they share, and proves what
each solver computes. The solvers read the puzzle input as raw bytes.

- **Shared parsers.** `u64_from_ascii` folds the digit bytes of a slice
  into a number. `ascii_lines` and `ascii_words` split on line feeds and
  spaces. The model also covers the standard-library routines the solvers
  lean on: `str::lines`, `split_ascii_whitespace`, `str::parse` and
  `collect` into a `Result`.
- **Day 1 (historian lists).** `parse` reads two columns of location
  ids. It splits each line at its first space after the indent and
  decodes both halves with a wrapping byte fold.
  - `part1_safe` sums the distances between the two columns after
    sorting them.
  - `part2_safe` computes the similarity score by merging runs of equal
    values in the two sorted columns.
- **Day 2 (reactor reports).** `part1_naive` counts reports whose levels
  move gradually (steps of 1 to 3) in one direction. It runs a
  four-state `try_fold`. `part2_naive` also accepts a report when
  removing one level makes it safe.
- **Day 3 (corrupted memory).**
  - The safe solvers slide an 8-byte window over the input.
  - `parse_mul` reads a `mul(l,r)` call from the 8 bytes that follow
    `mul(`. It panics when a captured operand is not all digits.
  - `parse_fn` also recognises `do()` and `don't()`.
  - The fast solvers jump to the next `m` (or `d`). They then match one
    of nine fixed call shapes and skip past it. Part 2 turns off after
    `don't()` until the next `do()`.
- **Day 4 (word search).**
  - The input is one flat 140 x 141-byte string: 140 lines of 140
    letters, each line ending in a line feed.
  - `part1` counts XMAS in all eight directions. It uses flat-index
    steps and `get` for the bounds check.
  - `part2` and `part2_original` count crossed MAS patterns. They use a
    byte-sum test on the four corners.
- **Day 5 (print queue).** `parse` reads the `l|r` ordering rules, and
  `part1` reads the updates. An update is correct when no rule's left
  page occurs at or after the position of its right page. `part1` sums
  the middle pages of the correct updates.
- **Day 7 (bridge repair).** `part1_safe` parses `target: v1 v2 ...`
  lines. Each line enumerates a counter `i` over the `+`/`*` choices:
  bit `idx` picks `*` for the operator before `values[idx + 1]`. It sums
  the targets that some choice reaches.

Panics (slice indexing, `assert!`, `unwrap`, `todo!`) are modelled as an
`Err(Panic(..))` result. Errors a solver returns through `?` are
modelled as `Err` values with the source's error kind.

Every input is the UTF-8 encoding of a Rust `&str`, taken as an
arbitrary byte string. Where a solver slices the `&str` itself, the
slice panics unless both ends fall on a char boundary. A position is a
boundary when it is at either end of the text or holds a byte that is
not a UTF-8 continuation byte (`0x80` to `0xBF`).

Files and modules:

- `results.dfy` (`Results`) holds the `Result` and `Option` types and
  the error kinds.
- `bytes.dfy` (`Bytes`) holds bytes, digits, ASCII whitespace, trimming
  and searching.
- `seqs.dfy` (`Seqs`) holds sums over sequences, sorting and
  permutations.
- `parsers.dfy` (`Parsers`) holds the shared parsers and the
  standard-library splitters.
- `day1.dfy` to `day7.dfy` hold one module per solver file (`Day1`,
  `Day2`, `Day3`, `Day3Fast`, `Day4`, `Day5`, `Day7`).
- `day1_example.dfy` and `day2_example.dfy` hold the worked examples of
  the source's tests.

## Model

| member | source | states |
|---|---|---|
| Parsers.U64FromAscii | src/parsers.rs:1-6 | the result is the decimal value of the slice's digit bytes read in order, with every other byte skipped; a slice without digits gives 0 |
| Parsers.FoldIsPositional | src/parsers.rs:5 | the `acc * 10 + d` fold started from `acc` equals `acc * 10^n` plus the positional value of the n digits |
| Parsers.AppendByte | src/parsers.rs:4-5 | appending a digit multiplies the value by ten and adds the digit; appending any other byte leaves the value unchanged |
| Parsers.RenderRoundTrip | src/parsers.rs:1-6 | decoding the decimal rendering of any natural number gives that number back |
| Parsers.LeadingZeros | src/parsers.rs:1-6 | leading `0` bytes do not change the decoded value |
| Parsers.SplitInclusive | src/parsers.rs:15-17 | the pieces of `ascii_lines`, concatenated, give back the input |
| Parsers.SplitInclusiveShape | src/parsers.rs:15-17 | every piece is non-empty, every piece but the last ends in the separator, and no piece holds the separator anywhere else |
| Parsers.SplitInclusiveConcat | src/parsers.rs:15-17 | splitting the concatenation of any such pieces gives back exactly those pieces |
| Parsers.Split | src/parsers.rs:19-21 | `ascii_words` yields one more piece than there are separators, no piece holds the separator, and joining the pieces with it gives back the input |
| Parsers.SplitJoin | src/parsers.rs:19-21 | splitting the join of any non-empty list of separator-free pieces gives back exactly those pieces |
| Parsers.Tokens | src/day2.rs:106 | `split_ascii_whitespace` yields non-empty tokens free of ASCII whitespace whose concatenation is the input with its whitespace removed |
| Parsers.TokensSkipGap | src/day2.rs:106 | leading whitespace yields no token |
| Parsers.TokensCons | src/day2.rs:106 | a token followed by whitespace or by the end is the first token, whole |
| Parsers.TokensOfInterleave | src/day2.rs:106 | maximality: tokens laid out between whitespace gaps, with every inner gap non-empty, come back exactly, neither merged nor split |
| Parsers.CollectAll | src/day2.rs:107-108 | collecting succeeds exactly when every item parses, keeps the values in order, and otherwise reports the error of the first failing item |
| Parsers.ParseU64 | src/day7.rs:16 | `str::parse::<u64>` accepts exactly a non-empty digit string with an optional leading `+`, and gives its decimal value |
| Parsers.ParseI64 | src/day2.rs:107 | `str::parse::<i64>` accepts exactly a non-empty digit string with an optional sign, and gives its signed decimal value |
| Parsers.ParseRenderRoundTrip | src/day7.rs:16 | both integer parsers read back the decimal rendering of any natural number |
| Day1.ZeroOffset | src/day1.rs:86 | `d - b'0'` wraps modulo 256: the result is below 256, adding 48 back gives the byte modulo 256, and on a digit byte it is the digit's value |
| Day1.I64FromAscii | src/day1.rs:83-87 | on an all-digit slice the fold gives the slice's decimal value |
| Day1.I64RenderRoundTrip | src/day1.rs:83-87 | decoding the decimal rendering of any natural number gives that number back |
| Day1.ParseLine | src/day1.rs:69-78 | a line fails with "not enough location ids" exactly when it holds no space after its indent |
| Day1.ParseLineSplitsAtFirstSpace | src/day1.rs:69-76 | a line splits at the first space after its indent: the left id is decoded from the end-trimmed part before it, the right id from the trimmed part from it on |
| Day1.ParseLineIgnoresIndent | src/day1.rs:69 | leading ASCII whitespace does not change what a line parses to |
| Day1.Parse | src/day1.rs:64-81 | the parse succeeds exactly when every line holds a space after its indent, and otherwise fails with "not enough location ids"; on success entry `i` of each column is the id line `i` parses to |
| Day1.Part1Safe | src/day1.rs:16-24 | the total distance fails exactly when parsing fails and is never negative |
| Day1.Part1SafeOfSorted | src/day1.rs:16-24 | on a parsed input the answer is the sum of the distances between the two columns paired in sorted order |
| Day1.TotalDistanceOfSorted | src/day1.rs:17-22 | the total distance is the sum of the distances between the two columns paired in sorted order |
| Day1.TotalDistancePermutation | src/day1.rs:18-19 | the total distance depends only on the multisets of the two columns |
| Day1.TotalDistanceSymmetric | src/day1.rs:20-22 | exchanging the two columns does not change the total distance |
| Day1.SwapLines | src/day1.rs:64-81 | exchanging two input lines changes neither answer |
| Day1.SwapColumns | src/day1.rs:16-62 | exchanging the same two positions in both columns changes neither the total distance nor the similarity score |
| Day1.SimilarityPermutation | src/day1.rs:28-30 | the similarity score depends only on the multisets of the two columns |
| Day1.SimilarityMerge | src/day1.rs:32-61 | on sorted columns the run-merging loop computes the sum, over the left column, of each value times its number of occurrences in the right column |
| Day1.RunEnd | src/day1.rs:45-53 | the run-skipping loop stops at the first position past `from` that does not hold `v` |
| Day1.Part2Safe | src/day1.rs:27-62 | the similarity score of the parsed columns, failing exactly when parsing fails |
| Day1Example.SampleDistance | src/day1.rs:93-105 | columns holding the example's ids, in any order, have total distance 11 |
| Day1Example.SampleSimilarity | src/day1.rs:93-110 | columns holding the example's ids, in any order, have similarity score 31 |
| Day1Example.ParseSample | src/day1.rs:93-101 | the test text parses to the columns 3 4 2 1 3 3 and 4 3 5 3 9 3. The text has its first line unindented and five lines with an 8-space indent, and every line ends in a line feed |
| Day1Example.SampleAnswers | src/day1.rs:93-110 | on the test text, part 1 gives 11 and part 2 gives 31 (`Part2Safe`'s contract equates its result with `Part2Spec`) |
| Day2.Step | src/day2.rs:25-46 | one fold step: the first level starts the report, and every later step must differ by 1 to 3; once a direction is chosen, it is kept |
| Day2.FoldAscending | src/day2.rs:39-45 | once ascending, the fold succeeds exactly when every later step rises by 1 to 3 |
| Day2.FoldDescending | src/day2.rs:32-38 | once descending, the fold succeeds exactly when every later step falls by 1 to 3 |
| Day2.SafeIffGradual | src/day2.rs:22-47 | the fold accepts a report exactly when it is strictly increasing or strictly decreasing with every step between 1 and 3 |
| Day2.ShortReportsAreSafe | src/day2.rs:25-26 | reports of zero or one level are safe |
| Day2.BadStepIsUnsafe | src/day2.rs:27-44 | a repeated level or a jump of more than 3 anywhere makes a report unsafe |
| Day2.Without | src/day2.rs:65-66 | `remove(i)` keeps every other level in order |
| Day2.TolerantLoop | src/day2.rs:63-95 | the removal loop accepts a report exactly when some single removal leaves a safe report |
| Day2.EmptyReport | src/day2.rs:22-26 | an empty report is safe for part 1 but is never accepted by the removal loop of part 2 |
| Day2.SafeIsTolerant | src/day2.rs:63-95 | every non-empty safe report is also accepted by part 2 |
| Day2.ParseReport | src/day2.rs:104-108 | a report parses to the values of its whitespace-separated tokens, in order, and fails with a parse error when a token is not an integer |
| Day2.Parse | src/day2.rs:101-111 | the reports are parsed line by line; the parse fails exactly when some line fails |
| Day2.BadTokenFails | src/day2.rs:101-111 | one malformed token on any line makes the whole parse fail |
| Day2.Part1Naive | src/day2.rs:18-51 | fails exactly when parsing fails, and otherwise counts the parsed reports that rise or fall by 1 to 3 at every step |
| Day2.CountSafeIsCountGradual | src/day2.rs:18-51 | counting the reports the fold accepts gives the same number as counting the gradual ones |
| Day2.Part2Naive | src/day2.rs:59-99 | fails exactly when parsing fails, and otherwise counts the reports that a single removal makes safe |
| Day2.Part2CoversPart1 | src/day2.rs:18-99 | part 2 counts at least the reports part 1 counts, except empty ones |
| Day2Example.SampleCounts | src/day2.rs:117-134 | the six example reports hold 2 safe reports and 4 that tolerate one removal |
| Day2Example.SampleRows | src/day2.rs:117-125 | the rows of the test text, as built from their digits, are exactly the six lines `7 6 4 2 1\n` … `1 3 6 7 9\n` |
| Day2Example.TokensOfSpaced | src/day2.rs:106 | single digits separated by single spaces split into one token per digit |
| Day2Example.ParseOfDigitRows | src/day2.rs:101-111 | line feed-closed rows of spaced digits parse, joined, to one report per row holding the rows' digit values |
| Day2Example.ParseSample | src/day2.rs:101-125 | the test text parses to the six example reports |
| Day2Example.SampleAnswers | src/day2.rs:127-135 | on the test text `part1_naive` gives `Ok(2)`, so `part1` gives 2, and the count `part2_naive` returns is 4 |
| Day3.SplitArgs | src/day3.rs:134-137 | no `,` among the 8 argument bytes means no call |
| Day3.SplitArgsOfCall | src/day3.rs:134-137 | on `l,r)` followed by anything, with no `,` in `l` and no `)` in `r`, the split yields exactly `l` and `r` |
| Day3.CallOfSplitArgs | src/day3.rs:134-137 | conversely, every split the search yields comes from such a layout |
| Day3.ParseMul | src/day3.rs:131-145 | no `mul(` prefix gives no call. A `mul(` prefix with fewer than 12 bytes panics on the slice. With 12 bytes, it panics with the boundary panic exactly when byte 4 or byte 12 is not a char boundary. It panics on the digit asserts exactly when the window is readable and the operands the split finds are not all digits. It gives no call exactly when there is no `mul(` prefix, or the window is readable and holds no `,` followed later by `)`. Only a `mul(` prefix can panic |
| Day3.ParseArgs | src/day3.rs:134-141 | inside the 8-byte window: no `,` or no `)` after it gives no call, and the only error is the digit-assert panic |
| Day3.ParseArgsPanics | src/day3.rs:138-139 | the digit asserts panic exactly when the split exists and one of its operands holds a non-digit |
| Day3.ParseMulOfBadCall | src/day3.rs:131-141 | a `mul(l,r)` layout with a readable window and a non-digit byte in `l` or `r`, such as `mul(a,1)xxxx`, panics on the digit asserts |
| Day3.ParseMulUnclosed | src/day3.rs:134-136 | a `mul(` window holding a `,` but no `)` after it gives no call, whatever follows the window |
| Day3.ParseMulOfCall | src/day3.rs:131-145 | a well-formed call whose digit operands hold at most 6 digits in all, either operand possibly empty (decoding to 0), and whose byte 12 is a char boundary, yields the product of the operands |
| Day3.CallOfParseMul | src/day3.rs:131-145 | every value `parse_mul` yields is the product of two digit operands of a call at the front of the input |
| Day3.ParseFn | src/day3.rs:176-196 | `mul(` behaves as in `parse_mul`, and otherwise `do()` starts, `don't()` stops, and anything else yields nothing |
| Day3.KeywordsExclusive | src/day3.rs:177-191 | no input starts with two of the three keywords, so the order of the tests does not matter |
| Day3.Part1Safe | src/day3.rs:120-129 | inputs shorter than the 8-byte window give 0 |
| Day3.Part1SafePanics | src/day3.rs:120-129 | part 1 panics exactly when some position the window examines panics: in `parse_mul`, or because byte 1 there is not a char boundary for `&input[1..]` |
| Day3.Part1SafeValue | src/day3.rs:120-129 | when part 1 does not panic, its answer is the sum of the products `parse_mul` finds at all examined positions |
| Day3.Part2SafeValue | src/day3.rs:147-168 | when part 2 does not panic, its answer is the sum of those products at the examined positions where the scanner is enabled. The scanner starts enabled, turns off after a `don't()` and on after a `do()` |
| Day3.TrailingCallPanics | src/day3.rs:124-133 | an input that ends in an 8-byte window starting with `mul(` makes both safe solvers panic on the 12-byte slice |
| Day3.Part1PanicsIffPart2Panics | src/day3.rs:120-168 | the two safe solvers panic on exactly the same inputs |
| Day3.Part2AtMostPart1 | src/day3.rs:120-168 | when part 1 succeeds, part 2 succeeds too and never exceeds it |
| Day3.Part2WithoutDont | src/day3.rs:147-168 | on an input without `don't()`, part 2 equals part 1 |
| Day3Fast.FirstFitEarliest | src/day3.rs:33-80 | the shape search reports the first of the nine shapes that fits, and reports none exactly when no shape fits |
| Day3Fast.MatchArgs | src/day3.rs:33-80 | a match captures operands of 1 to 3 bytes, separated by `,` and closed by `)`, right after `mul(` |
| Day3Fast.MatchArgsEarliest | src/day3.rs:33-80 | the match is the first fitting pattern in source order, and there is none exactly when no pattern fits |
| Day3Fast.MatchArgsOfCall | src/day3.rs:33-80 | a call whose operands have 1 to 3 bytes, with no `,` in the left one and no `)` in the right one, is matched with exactly those operands |
| Day3Fast.AsWrittenExcess | src/day3.rs:34-78 | the as-written formula exceeds the decoded product by `ZERO` times the cross terms of the two operands |
| Day3Fast.MulOneOne | src/day3.rs:34 | on `mul(1,1)` the as-written formula yields 97 and the corrected one yields 1 |
| Day3Fast.ParseMulArgsAsWritten | src/day3.rs:32-82 | the as-written parse matches and skips exactly as the corrected one does: the same offset, and no value exactly when no pattern fits |
| Day3Fast.ParseMulArgs | src/day3.rs:32-82 | corrected value: no value exactly when no pattern matches, with offset 4. Otherwise the offset is exactly the length of the matched call, 4 for `mul(`, plus the two captured operands, plus 2 for `,` and `)`; it lies between 8 and 12 and within the input |
| Day3Fast.FastAgreesWithSafe | src/day3.rs:32-82 | on a call with digit operands of 1 to 3 digits, the corrected pattern match yields the call's length and the same product `parse_mul` yields |
| Day3Fast.ParseAsciiMul | src/day3.rs:22-28 | corrected value: without `mul(` the scan advances one byte with no value; the offset always advances within the input |
| Day3Fast.ParseEnabled | src/day3.rs:109-118 | corrected value: the offset always advances within the input |
| Day3Fast.EnabledSpec | src/day3.rs:109-118 | the result disables exactly on a `don't()` that is not a `mul(`, then skipping 7 bytes; otherwise it is the `mul(` parse |
| Day3Fast.FirstOf | src/day3.rs:10-91 | the position search stops at a position holding one of the looked-for bytes, or at the end |
| Day3Fast.Part1Fast | src/day3.rs:5-18 | corrected value: an input without `m` sums to 0 |
| Day3Fast.Part1SkipsFiller | src/day3.rs:9-16 | bytes without `m` before the rest do not change the fast part 1 sum |
| Day3Fast.Part1SkipsToM | src/day3.rs:9-16 | the fast part 1 sum equals the sum from the first `m` on |
| Day3Fast.Part1OfCall | src/day3.rs:9-16 | corrected value: a digit call at the front adds the product of its operands and the scan resumes right after the call |
| Day3Fast.Part2Fast | src/day3.rs:84-107 | corrected value: while enabled, an input without `m` or `d` sums to 0 |
| Day3Fast.Part2SkipsFiller | src/day3.rs:89-97 | while enabled, bytes without `m` or `d` do not change the fast part 2 sum |
| Day3Fast.Part2SkipsToKeyword | src/day3.rs:89-97 | while enabled, the fast part 2 sum equals the sum from the first `m` or `d` on |
| Day3Fast.Part2NoKeyword | src/day3.rs:91-93 | while enabled, an input without `m` or `d` sums to 0 |
| Day3Fast.Part2OfCall | src/day3.rs:89-97 | corrected value: while enabled, a digit call at the front adds the product of its operands and the scan resumes right after the call |
| Day3Fast.Part2OfDont | src/day3.rs:94-114 | `don't()` at the front disables and skips its 7 bytes |
| Day3Fast.Part2OfDo | src/day3.rs:98-104 | while disabled, everything up to and including the first `do()` is skipped and the scan re-enables |
| Day3Fast.Part2WithoutD | src/day3.rs:84-107 | on an input without `d`, fast part 2 equals fast part 1 |
| Day4.Get | src/day4.rs:21 | `get` succeeds exactly for in-range indices, so a wrapped negative index misses |
| Day4.Part1 | src/day4.rs:12-93 | shorter inputs than 140 x 141 bytes minus the final line feed panic; otherwise the scan's count |
| Day4.FlatIffGrid | src/day4.rs:20-87 | on a well-formed grid, a flat-index match from an `X` is exactly XMAS running in that direction within the grid, since the line-feed column blocks wrapping |
| Day4.Part1CountsGridWords | src/day4.rs:12-93 | on a well-formed grid the flat scan counts exactly the XMAS words in all eight directions |
| Day4.CornerTestIsCross | src/day4.rs:208-227 | on the four letters, the corner-sum test with `tl != br` holds exactly when both diagonals read MAS in one direction or the other |
| Day4.Part2 | src/day4.rs:206-239 | inputs shorter than the grid minus its final line feed panic on the length hint |
| Day4.Part2Original | src/day4.rs:241-265 | inputs shorter than the grid minus its final line feed panic on the length hint |
| Day4.CentreIsCross | src/day4.rs:221-232 | on a well-formed grid, an interior cell scores 1 exactly when it is the centre of a crossed MAS |
| Day4.Part2CountsCrosses | src/day4.rs:206-239 | on a well-formed grid, `part2` counts exactly the crossed-MAS centres |
| Day4.EdgeScoresZero | src/day4.rs:250-262 | the extra first-column, last-letter-column and line-feed indices `part2_original` visits never score |
| Day4.Part2OriginalAgrees | src/day4.rs:206-265 | on a well-formed grid, `part2_original` and `part2` give the same answer |
| Day5.ParseRules | src/day5.rs:57-69 | parsing stops after a whole number of 6-byte rule lines, at the first 5-byte window that is not a rule. Rule `k` is read from the window 6k bytes on, which holds the vertical-bar separator in its middle, and is the pair of two-digit numbers around it. The only failure is the slice panic of a window past the input |
| Day5.ParseRulesOfRender | src/day5.rs:57-69 | rule lines rendered from two-digit pages, followed by a non-rule, parse back to exactly those rules |
| Day5.ParseUpdate | src/day5.rs:16-26 | an update holds at least one page and stops where no `,` follows a two-digit number |
| Day5.ParseUpdatePanics | src/day5.rs:16-26 | reading an update fails only with the slice panic, and does so when fewer than two bytes are left |
| Day5.ParseUpdateOfRender | src/day5.rs:16-26 | a comma-separated update of two-digit pages parses back to exactly those pages |
| Day5.CheckUpdate | src/day5.rs:28-37 | the nested loops keep the flag exactly when no rule's left page occurs at or after a position holding its right page |
| Day5.RespectsIffOrdered | src/day5.rs:28-37 | the check accepts an update exactly when, for every rule, every left-page occurrence comes strictly before every right-page occurrence |
| Day5.SelfRuleRejects | src/day5.rs:30-35 | a rule pairing `n` with itself rejects every update containing `n` |
| Day5.RespectsOrderFree | src/day5.rs:30 | only the set of rules matters, not their order or repetitions |
| Day5.UpdatesPanics | src/day5.rs:14-47 | the update loop fails only with the slice panic, and does so at once on fewer than two bytes |
| Day5.UpdatesOfRender | src/day5.rs:14-47 | line-separated updates are read back and their correct ones' middle pages summed |
| Day5.UpdatesTrailingNewline | src/day5.rs:18-46 | a line feed after the last update makes the loop read an empty update and panic |
| Day5.Part1 | src/day5.rs:5-50 | `part1` fails only with the slice panic. It fails when a rule window runs past the input. Once the rules are read, it fails exactly when the update loop that follows the blank line fails, that is when a two-byte page slice runs past the input. A trailing line feed causes this: the last round starts with fewer than two bytes |
| Day5.Part1OfRender | src/day5.rs:5-50 | a rendered rule section, blank line and update section give the sum of the middle pages of the correct updates |
| Day5.Part1TrailingNewlinePanics | src/day5.rs:9-46 | the same input with a final line feed panics |
| Day7.FoldMaskIsOps | src/day7.rs:22-33 | folding with counter `i` applies `*` exactly at the positions whose bit in `i` is set |
| Day7.OpsOfMaskOf | src/day7.rs:21-33 | every operator choice is selected by some counter value |
| Day7.MasksCoverChoices | src/day7.rs:21-37 | some counter below `2^(n-1)` reaches the target exactly when some choice of `+` and `*` does |
| Day7.Calibration | src/day7.rs:21-38 | a line panics exactly when it has no values, and is otherwise worth its target or 0 |
| Day7.CalibrationSolves | src/day7.rs:21-38 | a line with values is worth its target exactly when some operator choice reaches it, and 0 otherwise |
| Day7.CalibrationNoValues | src/day7.rs:21-27 | a line without values panics |
| Day7.CalibrationSingle | src/day7.rs:21-38 | a single value is worth the target exactly when it equals the target |
| Day7.FirstMaskSums | src/day7.rs:21-34 | counter 0 adds all values |
| Day7.LastMaskMultiplies | src/day7.rs:21-34 | the last counter multiplies all values |
| Day7.ParseEquation | src/day7.rs:13-20 | a line without `:` fails with "Invalid input format", and every other failure is an integer parse error |
| Day7.ParseOfRender | src/day7.rs:13-20 | a rendered `target: v1 v2 ...` line parses back to its target and values |
| Day7.LineValueOfRender | src/day7.rs:12-39 | a rendered line with values is worth its target exactly when some operator choice reaches it |
| Day7.TotalSums | src/day7.rs:12-40 | the sum succeeds exactly when every line succeeds, and is then the sum of the line values |
| Day7.TotalFirstError | src/day7.rs:12-40 | on failure, the error reported is that of the first failing line |
| Day7.TotalOrderFree | src/day7.rs:12-40 | reordering the lines changes neither success nor the sum |
| Day7.Part1Safe | src/day7.rs:11-41 | `part1_safe` succeeds exactly when every line succeeds, and is then the sum over the lines of each line's parsed value |
| Day7.Part1OfRender | src/day7.rs:11-41 | rendered lines, with or without a final line feed, sum to the targets of the solvable equations |
| Day7.Part1 | src/day7.rs:5-8 | `part1` succeeds exactly when `part1_safe` does, with the same value. A panic inside `part1_safe` passes through unchanged, and an error it returns becomes the `unwrap` panic |
| Day7.ExampleSolved | src/day7.rs:49-57 | the three example equations 190, 3267 and 292 are solvable |
| Day7.ExampleSolvedTotal | src/day7.rs:48-61 | the solvable example equations sum to 3749 |
| Day7.ExampleTotal | src/day7.rs:48-61 | `part1_safe` on the example text gives 3749 |

## Left out

- `main.rs`, the benchmarks and the `aoc` runner macros are not part of
  this model. The `part1`/`part2` wrappers that only `unwrap` a safe
  solver are modelled only for day 7.
- Integer widths: every `u64`, `i64`, `u32` and `usize` is an unbounded
  integer. Overflow panics and wrap-around in sums, products and the
  `i64` fold are not modelled. Day 1's `u8` subtraction `d - b'0'` is
  the one exception: it is modelled with wrap-around, as a release
  build computes it. A debug build panics on a byte below `'0'`
  instead, and the model does not follow that build there.
- Day3Fast.Part1Fast: both fast loops (`Part1Fast` and `Part2Fast`)
  add the corrected product of the decoded operands, not the value the
  source computes. The source's formula is `ParseMulArgsAsWritten`, and
  the gap between the two is the finding below.
- Day 3's fast part 2 slices the `&str` at `offset + pos` and `pos + 4`.
  On valid UTF-8 both positions follow an ASCII byte the scan just
  matched, so they are always char boundaries, and no boundary panic is
  modelled there.
- Day3Fast.ParseMulArgsAsWritten: the subtraction can underflow `u64`
  when the matched operand bytes are not digits, since the fast path
  never checks for digits. The model uses integer subtraction there.
- Day 3's fast solvers are modelled as pure recursive functions over
  the remaining input. No method mirrors the `loop`.
- Day 3's test that the fast and safe solvers agree on the puzzle input
  (src/day3.rs:204-206) depends on an input file that is not part of
  this model. Day3Fast.FastAgreesWithSafe relates the corrected fast
  parse to `parse_mul` call by call instead.
- Day 4's `part1_bitmap_wip` and `part1_weird` variants are
  work-in-progress alternatives, not part of the modelled core.
- Day4.Part1CountsGridWords: the counting theorems for both parts
  assume a well-formed 140 x 140 grid of the four letters. Other inputs
  of the right length are modelled, but no count is proved for them.
- Day4.Get: near the top and left edges, `part1` computes indices with
  `usize` subtraction that goes below zero. A debug build panics there,
  while a release build wraps to an index that `get` misses. The model
  follows the release build.
- Day 5's `part2` is `todo!()` in the source, and its tests compare
  against an input file.
- `num_from_digits!` is not part of this model. It is read as the
  two-digit decode `10 * (d1 - '0') + (d2 - '0')`.
- Day7.CalibrationSolves: the counter `i` and the bound `1 << n` are
  `i32`. The model uses unbounded masks, so it agrees with the source
  only for lines of at most 30 operators. With exactly 31 operators,
  `1 << 31` is `i32::MIN` in every build, the range `0..i32::MIN` is
  empty, and the source gives `Ok(0)` where the model searches. With 32
  or more, a debug build panics on the shift, and a release build masks
  the shift amount to its low five bits.
- Day7.TotalFirstError: `par_lines` evaluates lines in parallel, and
  the error `sum` reports may come from any failing line. The model
  reports the first one.
- Day7.CalibrationNoValues: a line without values panics because the
  model follows a debug build, where `values.len() - 1` underflows. A
  release build wraps it to `usize::MAX`, and the shift amount is masked
  to 31, giving `i32::MIN`. The range is then empty, `values[0]` is
  never read, and the line is worth `Ok(0)`. Here the model follows the
  debug build, while Day4.Get follows the release build.
- Day 7's test against the puzzle input file is not part of this model.

## Findings

| source | as written | input that shows it | evidently intended | confidence | as-written member | corrected member |
|---|---|---|---|---|---|---|
| src/day3.rs:34-78 | each pattern computes the product of the raw byte values minus `ZERO * ZERO` times the repunit factors, which leaves the cross terms `ZERO * (ones_l * r + ones_r * l)` in the result | `mul(1,1)`: 49 * 49 - 48 * 48 = 97 | the product of the decoded operands, 1 for `mul(1,1)`, as `parse_mul` computes it | not executed | Day3Fast.MulOneOne | Day3Fast.FastAgreesWithSafe, Day3Fast.Part1OfCall, Day3Fast.Part2OfCall |
