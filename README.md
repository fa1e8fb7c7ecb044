# Ant path segment matching and TOTP passcodes, in Dafny

This project models two parts of the repository and proves properties about them.

**The Ant-style path matcher (`path/ant_matcher.go`).**
- `tokenizePattern` splits a pattern into segments at `/`.
- `isPotentialMatch` is a cheap prefilter that walks a raw path against those segments. It uses `skipSeparator`, `skipSegment` and `isWildcardChar`.
- `RegexpQuote`, `quote` and `IndexFrom` build `\Q...\E` literal quotes of pattern text.
- `newStringMatcher` translates one pattern segment into a regular expression and a list of URI template variable names.
- `AntPathStringMatcher.MatchStrings` binds the capturing groups of a match to those names.

**The passcode generator (`totp/totp.go`).**
- The generator follows HOTP, as in RFC 4226:
  - `Int64ToByte` encodes the counter as 8 big-endian bytes;
  - `HashToInt32` and the masks of `GenerateResponseCode` perform the dynamic truncation of section 5.3;
  - `padOutput` prints the result zero-padded.
- `NewPasscodeGenerator` validates the code length.
- `VerifyTimeoutCode` accepts a code produced in a window of intervals around the current one.

Files:
- `wrappers.dfy`: `Option` and `Result`.
- `ant_strings.dfy`: `IndexFrom` and the join that inverts `strings.Split`.
- `ant_tokenizer.dfy`: `tokenizePattern`.
- `ant_prefilter.dfy`: `skipSeparator`, `skipSegment`, `isWildcardChar`, `isPotentialMatch`, and what the prefilter guarantees.
- `regex_syntax.dfy`: a small reader of Go regular-expression syntax. It covers the literal text a `\Q...\E` / escaped-character expression denotes, the number of capturing groups (a plain `(` and the named forms `(?P<name>` and `(?<name>` capture, every other `(?` does not), and whether an expression is closed: parentheses balanced by depth, with no escape or quoted run left open. Character classes are not read, so a `(` or `)` inside `[...]` would be miscounted; the statements that use the group count exclude `[`. It is used to state what `RegexpQuote` and `newStringMatcher` produce.
- `ant_quote.dfy`: `RegexpQuote` and `quote`.
- `ant_string_matcher.dfy`: `newStringMatcher`, as the constructor of the class `AntPathStringMatcher`, and `MatchStrings`.
- `totp.dfy`: the passcode generator.

Modelling choices:
- Go's `regexp` engine does two jobs here: it finds the `?`/`*`/`{...}` tokens of a segment, and it matches the compiled expression. The engine is not modelled. Its results are inputs:
  - the token positions are given as a list of `Span`s;
  - a match is given as the list `FindStringSubmatch` returns (`None` when there is no match).
- The HMAC-SHA1 signer is a function parameter that returns at least 20 bytes.
- Go's fixed-width integers are written out:
  - `int64` is a subset type;
  - the `int64` subtraction in the window loop wraps around (`Wrap64`);
  - the four digest bytes are reinterpreted as a signed `int32`;
  - `& 0x7FFFFFFF` on that value is its residue modulo 2^31, and `& 0xF` on a byte is its residue modulo 16.
- Strings are sequences of characters. The Go code indexes bytes and ranges over runes, which agree for ASCII text.

## Model

| member | source | states |
|---|---|---|
| AntStrings.FindFrom | path/ant_matcher.go:177-199 | an empty separator gives 0; otherwise the result is the first index at or after `from` where the separator occurs, or -1 when there is none |
| AntStrings.FirstFromUnique | path/ant_matcher.go:177-199 | the first occurrence from a position is unique, so `IndexFrom` has one correct answer |
| AntStrings.FindFromPrefix | path/ant_matcher.go:177-199 | an occurrence found in `a` is still the first one in `a + b` |
| AntStrings.IndexFrom | path/ant_matcher.go:177-199 | the loop returns 0 for an empty separator, otherwise the first occurrence at or after `from`, or -1 |
| AntTokenizer.TokenizePattern | path/ant_matcher.go:72-74 | `strings.Split` on `/`: at least one segment, no segment contains `/`, and joining the segments with `/` gives back the pattern |
| AntTokenizer.TokenizeJoin | path/ant_matcher.go:72-74 | the converse round trip: joining `/`-free segments and splitting again gives back the same segments |
| AntTokenizer.TokenizeAfterPiece | path/ant_matcher.go:72-74 | a `/`-free prefix is glued onto the first segment of the rest |
| AntTokenizer.TokenizeExample | path/ant_matcher.go:72-74 | `"/a/b"` splits into `["", "a", "b"]` (a leading separator gives an empty first segment) |
| AntPrefilter.IsWildcardChar | path/ant_matcher.go:132-139 | true exactly for `*`, `?` and `{`, the characters of `wildcard_chars` |
| AntPrefilter.SkippedSeparators | path/ant_matcher.go:98-114 | the number of characters skipped is positive only when it stays strictly inside the path |
| AntPrefilter.SkippedSeparatorsMaximal | path/ant_matcher.go:98-114 | after the skip, no further separator can be consumed |
| AntPrefilter.SkippedSeparatorsRepeat | path/ant_matcher.go:98-114 | the skipped text is a run of whole copies of the separator |
| AntPrefilter.SkipSeparator | path/ant_matcher.go:98-114 | the loop returns exactly `SkippedSeparators` |
| AntPrefilter.SkipSeparatorExamples | path/ant_matcher_test.go:8-24 | `"/ab/bb/cc"` with `"/b"` from 0, 3 and 10 skips 0, 2 and 0 characters |
| AntPrefilter.SkipExactSlashes | path/ant_matcher.go:98-114 | with the `/` separator, a run of `m` slashes followed by a non-slash is skipped as exactly `m` characters |
| AntPrefilter.SkipOnlySlashes | path/ant_matcher.go:98-114 | with the `/` separator, every skipped character is a slash |
| AntPrefilter.LiteralPrefixLength | path/ant_matcher.go:116-130 | the literal prefix of a segment ends at its first wildcard character or at its end |
| AntPrefilter.LiteralPrefixIsLiteral | path/ant_matcher.go:116-130 | no character inside the literal prefix is a wildcard |
| AntPrefilter.AlignFromBounds | path/ant_matcher.go:116-130 | the count of the `skipSegment` loop is 0 or grows only by characters of the literal prefix, without running past the path |
| AntPrefilter.SegmentAlignment | path/ant_matcher.go:116-130 | `skipSegment` returns at most the literal prefix length, 0 when the segment starts with a wildcard, and never runs past the end of the path |
| AntPrefilter.SkipSegment | path/ant_matcher.go:116-130 | the loop returns exactly `SegmentAlignment`, including the early return of 0 at the end of the path |
| AntPrefilter.AlignLiteral | path/ant_matcher.go:116-130 | when the path contains the segment at that point, the loop counts the whole literal prefix |
| AntPrefilter.AlignFull | path/ant_matcher.go:116-130 | counting a whole segment means the path contains that segment, wildcard-free, at that point |
| AntPrefilter.FullAlignmentIsLiteralMatch | path/ant_matcher.go:116-130 | `skipSegment` returns the full segment length only if the segment has no wildcard and occurs in the path at `pos` |
| AntPrefilter.LiteralMatchAlignsFully | path/ant_matcher.go:116-130 | the converse: a wildcard-free segment that occurs at `pos` is skipped in full |
| AntPrefilter.SkipSegmentExamples | path/ant_matcher_test.go:26-52 | the five cases of the test: 0, 1, 2, 0 and 0 characters |
| AntPrefilter.IsPotentialMatch | path/ant_matcher.go:76-96 | the loop computes `PotentialMatch`: true when `trimTokens` is set; otherwise the walk skips separators and aligns each segment, and answers at the first segment that does not align completely |
| AntPrefilter.RejectionAtLiteralSegment | path/ant_matcher.go:76-96 | a false answer always comes from a non-empty segment whose first character is not a wildcard |
| AntPrefilter.ScanPassesSegment | path/ant_matcher.go:80-94 | a segment that aligns completely hands the walk over to the next segment |
| AntPrefilter.ScanStopsAtSegment | path/ant_matcher.go:85-90 | a partial alignment, or a segment starting with a wildcard, makes the answer true |
| AntPrefilter.LiteralSegmentLinesUp | path/ant_matcher.go:80-85 | where the path is the pattern itself, the skip consumes exactly the slashes before the segment and the segment's whole literal prefix aligns |
| AntPrefilter.ScanAcceptsLayout | path/ant_matcher.go:76-96 | the walk accepts any path that is laid out like the remaining segments |
| AntPrefilter.ScanAcceptsLiteralFirst | path/ant_matcher.go:76-96 | the same, when the next segment is non-empty |
| AntPrefilter.ScanAcceptsEmptyFirst | path/ant_matcher.go:76-96 | the same, when the next segment is empty (consecutive or leading slashes) |
| AntPrefilter.PrefilterAcceptsPatternItself | path/ant_matcher.go:72-96 | the prefilter never rejects the pattern text as the path: no false negative on the identical path |
| AntQuote.PiecesRoundTrip | path/ant_matcher.go:160-172 | the pieces between `\E` occurrences, joined with `\E`, give back the text, and no piece contains `\E` |
| AntQuote.PiecesFromRejoin | path/ant_matcher.go:160-172 | the same for the pieces from a position on |
| AntQuote.PiecesFromStep | path/ant_matcher.go:162-169 | one round of the loop: the piece up to the next `\E` and the pieces after it make up the pieces from `current` |
| AntQuote.QuotedWithoutClose | path/ant_matcher.go:149-152 | text without `\E` is quoted as `\Q` + text + `\E` (the early return) |
| AntQuote.FirstCloseAfterPiece | path/ant_matcher.go:162-169 | inside a quote, the first `\E` after the opening `\Q` is the one that closes the piece |
| AntQuote.QuotedRunIsLiteral | path/ant_matcher.go:168-173 | a run of quoted pieces separated by escaped `\E`s denotes the pieces joined with `\E` |
| AntQuote.QuotedRunIsClosed | path/ant_matcher.go:168-173 | such a run has no capturing group and is closed: it ends outside the quote, and any parentheses in it are quoted text |
| AntQuote.QuotedIsLiteral | path/ant_matcher.go:148-175 | the quoted form of any text denotes exactly that text, has no capturing group and is closed |
| AntQuote.RegexpQuote | path/ant_matcher.go:148-175 | the loop builds the quoted form, and the result as a regular expression matches exactly the input text |
| AntQuote.Quote | path/ant_matcher.go:141-146 | `quote` returns the empty string exactly for an empty range; what the text denotes is in `AntQuote.QuoteIsLiteral` |
| AntQuote.QuoteIsLiteral | path/ant_matcher.go:141-146 | `quote` of an empty range is empty; otherwise it denotes exactly the slice, with no capturing group, and is closed |
| AntQuote.QuoteExampleText | path/ant_matcher_test.go:54-60 | the expected text of the test, spelled out as `\Q`, piece, escaped `\E`, piece, `\E` |
| AntQuote.QuoteExample | path/ant_matcher_test.go:54-60 | `/aa/bb/c\Ec` is quoted as `\Q/aa/bb/c\E\\E\Qc\E` |
| AntStringMatcher.Classify | path/ant_matcher.go:249-270 | only a `{...}` token yields a variable; a custom expression's name contains no colon, and name, expression, braces and colon make up the whole token |
| AntStringMatcher.ColonInside | path/ant_matcher.go:256-267 | the first colon of a brace token lies strictly between the braces, and the name before it has no colon |
| AntStringMatcher.ClassifyVariable | path/ant_matcher.go:255-259 | a brace token without a colon is the variable named by its inner text |
| AntStringMatcher.TranslateToken | path/ant_matcher.go:247-270 | one loop round appends `.`, `.*`, `(.*)` or `(` expression `)` and records the name, as the token classification says |
| AntStringMatcher.AntPathStringMatcher.constructor | path/ant_matcher.go:235-284 | the source is the quoted gaps and translated tokens in order, anchored and wrapped in `(?i:...)` when case-insensitive; the names are those of the variable tokens in order; the default pattern is `(.*)` |
| AntStringMatcher.NamedGroupIsNotPlain | path/ant_matcher.go:260-268 | a custom expression holding a named group, `(?P<x>a)` or `(?<x>a)`, has a capturing group of its own, so the group statement below does not cover it |
| AntStringMatcher.DefaultPatternGroups | path/ant_matcher.go:238 | the default variable expression `(.*)` is closed and has exactly one capturing group |
| AntStringMatcher.CustomGroups | path/ant_matcher.go:264-266 | wrapping a closed custom expression that has no capturing group (named ones included), no character class and no leading `?` in `(` `)` gives a closed expression with exactly one capturing group |
| AntStringMatcher.TokenRegexGroups | path/ant_matcher.go:251-268 | a token's expression (for custom expressions: those `CustomGroups` covers) is closed and has one capturing group per recorded name |
| AntStringMatcher.EmittedGroups | path/ant_matcher.go:245-273 | after any number of tokens the built text is closed (balanced by depth) and has as many capturing groups as names recorded |
| AntStringMatcher.BodyGroups | path/ant_matcher.go:240-275 | the same for the finished body, trailing quote included |
| AntStringMatcher.AnchoredGroups | path/ant_matcher.go:277-278 | anchoring with `^...$` adds no capturing group |
| AntStringMatcher.CaseInsensitiveGroups | path/ant_matcher.go:279-280 | wrapping in `(?i:^...$)` adds no capturing group |
| AntStringMatcher.SourceGroupsMatchNames | path/ant_matcher.go:216-221 | when every custom expression is closed and has no capturing group (named ones included), no character class and no leading `?`, the compiled source has exactly one capturing group per variable name, so the group-count error cannot fire |
| AntStringMatcher.NoTokensIsLiteral | path/ant_matcher.go:275 | a segment without tokens becomes an expression that denotes the segment literally |
| AntStringMatcher.ExampleTokens | path/ant_matcher_test.go:62-70 | the two tokens of `/aa/bb/cc/{ab}/{cd}` are the variables `ab` and `cd` |
| AntStringMatcher.VariableNamesExample | path/ant_matcher_test.go:62-70 | the matcher for `/aa/bb/cc/{ab}/{cd}` records the names `["ab", "cd"]` |
| AntStringMatcher.ClassifyCustomExample | path/ant_matcher.go:260-268 | `{id:(a)}` is the custom expression `(a)` named `id` |
| AntStringMatcher.CapturingCustomMismatch | path/ant_matcher.go:216-221 | a custom expression with its own group gives a body with two groups for one name, the case the error message describes |
| AntStringMatcher.AntPathStringMatcher.MatchStrings | path/ant_matcher.go:208-233 | no match gives (false, no error); a nil map gives (true, no error); a group count different from the name count gives (false, the exact message) and leaves the map alone; otherwise each name is bound to its group in order |
| AntStringMatcher.BindKeepsOthers | path/ant_matcher.go:222-226 | binding leaves keys that no variable names unchanged |
| AntStringMatcher.BindLaterWins | path/ant_matcher.go:222-226 | every name is bound to the value of its last occurrence |
| AntStringMatcher.BindKeys | path/ant_matcher.go:222-226 | the keys afterwards are the old keys plus the names |
| AntStringMatcher.MatchStringsExample | path/ant_matcher_test.go:62-70 | matching `/aa/bb/cc/123/456` binds `ab` to `123` and `cd` to `456` |
| Totp.DigitsPowerIsPow10 | totp/totp.go:33-35 | entry `k` of `DIGITS_POWER` is 10^k and fits a signed 32-bit integer |
| Totp.NewPasscodeGenerator | totp/totp.go:62-71 | success exactly for lengths 0..9, keeping the signer and length; otherwise the fixed error message |
| Totp.BigEndianBound | totp/totp.go:106-115 | `n` big-endian bytes denote a number below 256^n |
| Totp.DecodeEncode | totp/totp.go:111-115 | encoding `u` in `n` bytes and decoding gives `u mod 256^n` |
| Totp.EncodeDecode | totp/totp.go:111-115 | decoding bytes and encoding again in the same width gives the bytes back |
| Totp.EncodeBigEndian | totp/totp.go:111-115 | encoding in `n` bytes gives exactly `n` bytes |
| Totp.Int64ToByte | totp/totp.go:111-115 | every counter becomes exactly 8 bytes; their value is in `Totp.Int64ToByteRoundTrip` |
| Totp.Int64ToByteRoundTrip | totp/totp.go:111-115 | the counter becomes 8 bytes denoting `uint64(value)`, the two's complement of a negative value |
| Totp.Int64ToByteInjective | totp/totp.go:111-115 | different counters give different messages to sign |
| Totp.HashToInt32 | totp/totp.go:106-109 | the value is a signed 32-bit integer congruent modulo 2^32 to the four big-endian bytes at the offset |
| Totp.FourBytes | totp/totp.go:106-109 | four bytes denote `b0*2^24 + b1*2^16 + b2*2^8 + b3`, below 2^32 |
| Totp.Offset | totp/totp.go:76 | the offset is the low nibble of the last digest byte, at most 15, and leaves four bytes inside the digest |
| Totp.DynamicTruncation | totp/totp.go:76-78 | the masked value lies in [0, 2^31) |
| Totp.DynamicTruncationIsLast31Bits | totp/totp.go:76-78 | masking with `0x7FFFFFFF` keeps the low 31 bits of the four bytes at the offset (section 5.3 of RFC 4226) |
| Totp.Decimal | totp/totp.go:101-104 | `%d` of a non-negative value is a non-empty digit string with no leading zero |
| Totp.DecimalRoundTrip | totp/totp.go:101-104 | the digits read back as the value |
| Totp.DecimalLength | totp/totp.go:101-104 | a value below 10^n has at most `n` digits |
| Totp.LeadingZeros | totp/totp.go:101-104 | zero padding keeps a digit string's value |
| Totp.PadOutput | totp/totp.go:101-104 | the output is a non-empty string of decimal digits, at least `codeLength` long; its exact length and value are in `Totp.PadOutputCorrect` |
| Totp.PadOutputCorrect | totp/totp.go:101-104 | a value below 10^codeLength prints as exactly `codeLength` digits that read back as the value |
| Totp.PadOutputZeroWidth | totp/totp.go:101-104 | with a length of 0 the format has no width and 0 prints as "0" |
| Totp.ResponseValue | totp/totp.go:73-79 | the value reduced by `DIGITS_POWER[codeLength]` is below 10^codeLength |
| Totp.GenerateResponseCode | totp/totp.go:73-81 | every passcode is a non-empty string of decimal digits, at least `codeLength` long; its length and value are in `Totp.ResponseCodeIsHotp` |
| Totp.ResponseCodeIsHotp | totp/totp.go:73-81 | a passcode of length n >= 1 is n digits whose value is the HOTP value: the low 31 bits of the four bytes at the offset, modulo 10^n |
| Totp.ExampleTruncation | totp/totp.go:76-78 | on the digest of section 5.4 of RFC 4226 the offset is 10 and the truncated value is 0x50ef7f19 |
| Totp.ExampleCode | totp/totp.go:73-81 | with that digest and six digits the passcode is "872921" |
| Totp.ZeroLengthAccepted | totp/totp.go:62-71 | the guard accepts a length of 0, and that generator prints "0" for every counter |
| Totp.NewCheckedPasscodeGenerator | totp/totp.go:62-71 | success exactly for lengths 1..9, as the error message states |
| Totp.CheckedCodesHaveFullLength | totp/totp.go:62-81 | every passcode of a generator built by the corrected constructor has exactly the requested number of digits |
| Totp.Wrap64 | totp/totp.go:92 | the result is an `int64` congruent to the exact difference modulo 2^64 (Go's wrapping subtraction) |
| Totp.VerifyTimeoutCode | totp/totp.go:83-99 | negative window sizes become 0, and the result is true exactly when the interval `currentInterval - i` gives the code for some `i` from `-pastIntervals` to `futureIntervals`: `pastIntervals` reaches the intervals AFTER the current one and `futureIntervals` those before it |
| Totp.ZeroWindow | totp/totp.go:83-99 | with both windows empty, only the current interval's code is accepted |
| Totp.NegativeWindowsClamp | totp/totp.go:84-89 | negative window sizes behave as empty windows |
| Totp.WideningKeepsAcceptance | totp/totp.go:91-96 | a wider window accepts every code a narrower one accepts |
| Totp.WindowRunsBackwards | totp/totp.go:91-92 | with `pastIntervals` 1 and `futureIntervals` 0 the code of the next interval is accepted, and with the two swapped the code of the previous one |
| Totp.AsNamedIsSwapped | totp/totp.go:83-99 | the window the parameter names describe is the written window with the two sizes exchanged |
| Totp.AsNamedAcceptsItsWindow | totp/totp.go:83-99 | the window as named accepts the code of each of the `pastIntervals` intervals before the current one and each of the `futureIntervals` after it |
| Totp.VerifyWindowAsNamed | totp/totp.go:83-99 | verification with the window as named: true exactly when an interval from `pastIntervals` before to `futureIntervals` after the current one gives the code |

The remaining lemmas with an `ensures` are helpers with no row of their own:
- `ant_strings.dfy`: `JoinWithFirst`.
- `ant_prefilter.dfy`: `SliceTail`, `SliceSplit`, `JoinFrom`, `JoinStartsWithSeparator`, `EatSlashes`, `LayoutAfterSegment`, `EmptySegmentLayout`, `SkipEmptySegment`.
- `regex_syntax.dfy`: every lemma. They state facts about the regular-expression syntax, not about the repository.
- `ant_quote.dfy`: `NoCloseSlice`, `QuotedRunUnfold`, `ReadQuotedPiece`, `ReadEscapedClose`, `ReadPieceThenClose`.
- `ant_string_matcher.dfy`: `ConcatThree`, `EmittedStep`, `TwoGroups`, and the constructor of `UriTemplateVariables`.
- `totp.dfy`: `Pow10`, `Pow256`, `ModSplit`, `MulAtLeast`, `MulSign`, `DivModUnique`, `Zeros`, `ZerosValue`.

## Left out

- The commented-out `Match` driver of `path/ant_matcher.go` is not code, so it is not modelled. Neither is `path/path_matcher.go`.
- The `regexp` engine is not modelled:
  - compiling the glob expression of `newStringMatcher`;
  - finding its tokens (`FindAllStringSubmatch`/`...Index`);
  - compiling the segment expression and running it (`MatchString`, `FindStringSubmatch`).

  Token positions and match results are inputs. `ValidSpans` states what the token scanner guarantees (in range, ordered, non-overlapping).
- AntStringMatcher.Classify: a variable's name is taken as the token's text between the braces. This is what group 1 of the glob expression `\{(...)\}` captures.
- AntStringMatcher.AntPathStringMatcher.constructor: compiling the source is not modelled. The field holds the source text, which is what `pattern.String()` returns in the error message. The compiled `glob_pattern` field is not kept.
- AntStringMatcher.SourceGroupsMatchNames: the statement covers only custom expressions that `PlainRegex` admits. Such an expression is closed, has no capturing group (plain or named), contains no `[`, and does not start with `?`. Escapes, `\Q...\E` and non-capturing groups such as `(?:...)` are allowed. Character classes are left out because the group count does not read them. An expression with its own group is the case `CapturingCustomMismatch` exhibits, where the count differs.
- The `fmt.Println` debug output in `MatchStrings` and the test functions' printing are I/O.
- The unused globals of `path/ant_matcher.go` are not modelled. `trimTokens` (false in the source) is a parameter of `IsPotentialMatch`.
- Rune and byte indexing are identified. The Go code mixes them, and they agree only on ASCII text.
- The signer: HMAC-SHA1 and the internal state of `HmacSigner` (write, sum, reset) are not modelled. The signer is a pure function returning at least 20 bytes.
- The command-line part of `totp/totp.go` is I/O, clocks and key decoding, so it is not modelled. It covers `accounts`, `initAccounts`, base32 secret decoding, `main`, the timer loop and flag parsing. `Interval`, `PassCodeLength` and `AdjacentIntervals` are kept only as constants.
- Totp.PadOutput: `fmt.Sprintf` is not interpreted. The zero-padded decimal printing of a non-negative value is stated directly, including the width 0 case, where `%00d` sets no width.
- Totp.VerifyTimeoutCode: requires `futureIntervals` below the largest `int64`. With that value, Go's `i <= futureIntervals` loop counter wraps around, and the loop either never ends or returns on a wrapped counter.
- Totp.Offset, Totp.DynamicTruncation: the masks `& 0xF` and `& 0x7FFFFFFF` are written as `% 16` and `% 2^31`. These are equal for the non-negative byte and for the two's complement `int32` reinterpretation.
- AntPrefilter.SkipSeparator: requires a non-empty separator. With an empty one, Go's loop never advances and never ends while `pos < len(path)`. The matcher calls it only with `"/"`.

## Findings

| source | as written | input that shows it | evidently intended | confidence | as-written member | corrected member |
|---|---|---|---|---|---|---|
| totp/totp.go:63-64 | the guard refuses only lengths below 0 or above 9 | `NewPasscodeGenerator(sign, 0)` succeeds, and every code of that generator is "0" | lengths 1..9, as the error message says | medium, not executed | Totp.ZeroLengthAccepted | Totp.NewCheckedPasscodeGenerator |
| totp/totp.go:91-92 | the loop tries `currentInterval - i` for `i` from `-pastIntervals` to `futureIntervals`, so `pastIntervals` counts intervals after the current one and `futureIntervals` intervals before it | `VerifyTimeoutCode(code, current, 1, 0)` tries only the intervals `current + 1` and `current`, so it accepts the code of the next interval | `pastIntervals` intervals before and `futureIntervals` after the current one, as the names say | medium (nothing in the file calls it, and the symmetric `ADJACENT_INTERVALS` setting would not tell the two apart), not executed | Totp.WindowRunsBackwards | Totp.VerifyWindowAsNamed |
