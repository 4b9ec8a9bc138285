# A model of the fc library's algorithms

This project models the self-contained algorithms of the fc utility library and proves what they are for:
text in UTF-8, UTF-16 and UTF-32, the JSON printer, legacy reader and pretty-printer, the token-bucket rate
limiter, CRC-32C, SHA-3, the small-string compressor, 128-bit integers, digest shifts and the approximate
logarithm of a hash, base 58 and base 36, Blowfish in three modes, the WebAuthn client-data handler, and NTP
timestamps.

Code that works by changing things step by step is imperative here as well: loops over arrays and streams with
their invariants, classes whose methods update fields (`InStream`, `OutStream`, `Group`, `Encoder`, `U128`,
`Hash`, `Cipher`, `Handler`). Each such method is tied by its postcondition to a function of its inputs, and the
promises are proved about those functions, for all inputs: round trips in both directions, fast forms against
simple ones, invariants over whole runs. Where a standard says what a function computes, it is also compared with
an independent statement of that standard: FIPS 202 in bits, RFC 4960 as division of polynomials, RFC 3629 and RFC 2781,
the textbook forms of the cipher and its modes, and the texts and numbers themselves written out.

| files | what they model |
|---|---|
| `Utf8`, `Sanitizer`, `Transcode`, `TextStandards` | validation, encoding, decoding, sanitising, conversion between the three encodings |
| `JsonStrings`, `JsonGrammar`, `JsonReader`, `JsonPrinter`, `JsonRoundTrip`, `JsonFaithful`, `JsonPretty`, `JsonLayout`, `JsonStrip`, `JsonApi`, `JsonText`, `JsonTextRead` | printing, reading and pretty-printing of trees; the last two in plain characters |
| `Allocator`, `RateLimiter`, `RateLimiterRuns`, `RateLimiterProgress`, `RateLimiterCap`, `RateLimitingGroup` | one iteration, steps, what runs keep and what they achieve, the burst cap, the class |
| `Crc32c`, `CrcTables`, `Crc32cPolynomial` | bit-serial division, tables, slicing by eight, remainders of polynomials |
| `KeccakConstants`, `Keccak`, `Sha3`, `Sha3Encoder` | the constants, the permutation, the sponge and the class |
| `Fips202`, `Sha3Bits` | the standard in bits, and that the code is that |
| `Smaz`, `SmazTables`, `SmazPlaces`, `SmazComplete` | the compressor for any agreeing tables and with its own; that these find every fragment |
| `Words`, `WideShift`, `UInt128`, `UInt128Divide`, `UInt128Text`, `UInt128Radix` | 128-bit numbers in two halves |
| `BigEndian`, `DigestShift`, `ApproxLog`, `Sha256`, `FourBytes` | digests as numbers |
| `Radix`, `Base58`, `Base36`, `Alphabets` | changes of base, the alphabets and what the texts mean |
| `Blowfish`, `BlowfishModes`, `BlowfishStandard` | the block cipher and its buffer modes, and the textbook forms |
| `WebAuthn`, `WebAuthnNames`, `WebAuthnBounds` | the event handler, the names it looks for, and how deep documents may be for it |
| `Ntp`, `NtpAnchor` | timestamps |
| `Bytes`, `Bits`, `BitStrings`, `WordBits`, `Arith`, `Decimal`, `Options`, `Seqs` | shared vocabulary |

## Results where the code differs from what one might expect

- The legacy reader's depth budget is taken down twice per level in 32 unsigned bits, so an even budget must
  exceed twice the height of the tree, and an odd budget never runs out (`JsonRoundTrip.RoundTrip`).
- A tree comes back from its text unchanged exactly when it is faithful (`JsonFaithful.CanonicalIffFaithful`):
  four-digit escapes are not decoded (src/io/json.cpp:42-57), non-negative signed integers come back unsigned,
  large integers printed in quotes come back as strings.
- A comment in `escape_string` says that tab, line feed, carriage return, backslash and quote fall through to
  the default when control characters are escaped (src/io/json.cpp:541); the code falls through when they are
  not. The model follows the code.
- Objects are read with an operation that appends without looking for the key (src/variant_object.cpp:369-376),
  so repeated keys come back as they are (`JsonFaithful.RepeatedKeysAreKept`).
- While there is a limit, a queued operation of length zero waits until it is cancelled
  (`RateLimiterProgress.ZeroLengthWaits`).
- Once dry, a slow limit polled often never grants anything: the time passed is rounded down to whole bytes at every
  iteration (`RateLimiterProgress.HastyRunStarves`). A limit and a burstiness whose product is a multiple of 2^32
  starve as well.
- The string form of the compressor rejects texts that do not shrink (`SmazTables.OneByteDoesNotFit`).
- The inverse of the approximate logarithm is exact only from exponent 24 on or where no bit falls out
  (`ApproxLog.LogOfInverseIsExactIff`).
- An NTP round trip is off by one microsecond on an exactly known set of times (`Ntp.TimeIsKept`).
- The handler's nesting counter is 32 bits wide. Up to 2^32 levels it is right, and no larger bound would do
  (`WebAuthnBounds.BoundIsExact`): beyond, nested arrays are refused and nested objects can have a nested key stored
  (`WebAuthnBounds.NestedKeyIsStored`).

## Model

| member | source | states |
|---|---|---|
| Utf8.ValidateNext | src/utf8/core.h:98-272 | a validation step that succeeds moves forward inside the string and reports a valid code point, one that fails stays where it is |
| Utf8.DecodeUndoesEncode | src/utf8/core.h:98-272 | the encoding of every valid code point, at any place in any string, validates, decodes to that code point and is consumed exactly |
| Utf8.EncodeUndoesDecode | src/utf8/core.h:98-272 | whatever a validation step accepts is byte for byte the encoding of the code point it reports: no overlong form, no surrogate, nothing above U+10FFFF |
| Utf8.FindInvalid | src/utf8.cpp:21-37 | the loop stops at the end of the longest prefix of valid code points outside the excluded range, and reports the excluded code point only if that is what stopped it |
| Sanitizer.CleanIffScanned | src/utf8.cpp:40-44 | the scan reaches the end if and only if the string is an encoding of code points none of which is in U+0080..U+009F |
| Sanitizer.IsValidUtf8 | src/utf8.cpp:40-44 | accepts exactly those strings |
| Sanitizer.PruneInvalidUtf8 | src/utf8.cpp:47-69 | the loop computes the sanitising function, for every byte string |
| Sanitizer.SanitizeIsClean | src/utf8.cpp:47-69 | sanitised output is always accepted |
| Sanitizer.SanitizeIsIdentityIffClean | src/utf8.cpp:47-69 | sanitising changes exactly the strings that are not accepted |
| Sanitizer.SanitizeIsIdempotent | src/utf8.cpp:47-69 | sanitising twice is sanitising once |
| Transcode.DecodeAllUndoesEncodeAll | src/utf8/checked.h:249-263 | every sequence of valid code points survives UTF-32 to UTF-8 and back |
| Transcode.EncodeAllUndoesDecodeAll | src/utf8/checked.h:249-263 | every byte string that decodes is re-encoded byte for byte |
| Transcode.Utf32To8 | src/utf8/checked.h:73-99 | fails exactly on a sequence with an invalid code point, otherwise gives its encoding |
| Transcode.Utf8To32 | src/utf8/checked.h:258-263 | fails exactly on strings that do not decode as a whole, otherwise gives the code points |
| Transcode.Utf16To8 | src/utf8/checked.h:207-231 | pairs of surrogates are joined, a lone one is an error |
| Transcode.Utf8To16 | src/utf8/checked.h:234-246 | fails exactly on strings that do not decode as a whole, otherwise gives the 16-bit units, a surrogate pair for every code point beyond the basic plane |
| Transcode.PointsOfUndoesUnitsAll | src/utf8/checked.h:207-246 | splitting code points into 16-bit units and joining them gives the code points back |
| Transcode.UnitsAllUndoesPointsOf | src/utf8/checked.h:207-246 | well-formed 16-bit text is split again into the same units |
| Transcode.Utf16RoundTrip | src/utf8/checked.h:207-246 | UTF-16 that converts to UTF-8 converts back to itself |
| Transcode.Utf8RoundTrip | src/utf8/checked.h:207-246 | UTF-8 that converts to UTF-16 converts back to itself |
| TextStandards.AcceptsTable | src/utf8/core.h:98-272 | the decoder accepts exactly the octet sequences of the table in section 4 of RFC 3629, and reports their payload bits |
| TextStandards.OnePointIsClean | src/utf8.cpp:40-44 | an encoded code point is accepted unless it is one of U+0080 to U+009F |
| TextStandards.SanitizeByTable | src/utf8.cpp:47-69 | the sanitiser keeps what that table has, spells out U+0080 to U+009F and drops every other octet |
| TextStandards.UnitsAre | src/utf8/checked.h:234-246 | the 16-bit units of a code point are those of section 2.1 of RFC 2781 |
| TextStandards.PairIs | src/utf8/checked.h:207-231 | surrogate pairs are joined as in section 2.2 of RFC 2781, anything else with a surrogate fails |
| JsonStrings.EscapeString | src/io/json.cpp:495-573 | the switch, with its fall-through when control characters are kept, followed by the sanitiser |
| JsonStrings.EscapedIsPrintable | src/io/json.cpp:495-573 | escaped text is always accepted UTF-8 and, with control escaping on, has no byte below 0x20 and no 0x7F |
| JsonStrings.EscapedIsUnitwise | src/io/json.cpp:495-573 | escaping first and sanitising the result is the same as treating the string one code point or one bad byte at a time |
| JsonStrings.LiteralReadsBack | src/io/json.cpp:88-120 | the legacy reader takes exactly a printed string literal and returns a string that differs only where the printer wrote a four-digit escape |
| JsonStrings.RespellIsPlain | src/io/json.cpp:35-61 | what is read back can be printed and read again without change |
| JsonStrings.RespellIsIdentityIffPlain | src/io/json.cpp:35-61 | a string survives printing and reading if and only if it is accepted UTF-8 without C1 characters, without DEL and without control characters other than tab, line feed and carriage return |
| JsonText.Escapes | src/io/json.cpp:35-61 | every character below 128 in a literal: the two-character escapes, or six characters whose hexadecimal digits read as its code |
| JsonText.Unescapes | src/io/json.cpp:88-120 | what each escape in a literal is read as, and where the literal ends |
| JsonReader.SkipWhiteSpace | src/io/json.cpp:64-85 | skips white space and reports whether there was any; throws at the end of the input |
| JsonReader.ReadString | src/io/json.cpp:88-122 | reads a literal from the shared stream exactly as the grammar function says, or fails |
| JsonReader.ReadNumber | src/io/json.cpp:252-314 | a sign, digits, one dot; then signed, unsigned or real, or a token when letters follow; whether a text converts to a real is a parameter |
| JsonReader.ReadWord | src/io/json.cpp:316-386 | null, true and false, and any other word as a string |
| JsonReader.ReadObject | src/io/json.cpp:170-218 | members with commas skipped freely, each one appended whether or not its key is there already |
| JsonReader.ReadArray | src/io/json.cpp:220-250 | items with commas skipped freely |
| JsonReader.ReadValue | src/io/json.cpp:388-440 | dispatch on the first character; the depth budget is a 32-bit counter that is taken down at every call and fails at zero |
| JsonReader.FromString | src/io/json.cpp:442-460 | a whole text is read as the grammar function says |
| JsonText.WordsRead | src/io/json.cpp:316-386 | the texts null, true and false in front of a delimiter are read as those three values |
| JsonTextRead.NumbersRead | src/io/json.cpp:252-314 | a run of digits is its decimal value, leading zeros or not, up to 2^64 - 1, after a minus sign down to -2^63, and fails beyond |
| JsonTextRead.PointsRead | src/io/json.cpp:252-314 | with a point it is kept as text or converted, a second point fails, and so does a sign or a point alone |
| JsonTextRead.LettersAfterDigits | src/io/json.cpp:252-314 | digits followed by a letter begin an unquoted string |
| JsonTextRead.TokensRead | src/io/json.cpp:125-167 | character by character what an unquoted string takes, unescapes and stops at |
| JsonTextRead.BracketsRead | src/io/json.cpp:170-250 | closing brackets end a container, commas change nothing wherever they stand, an exhausted budget fails |
| JsonTextRead.MembersRead | src/io/json.cpp:170-218 | a member is a string literal, a colon and a value read with one level less |
| JsonText.SpacesSkipped | src/io/json.cpp:64-85 | the four white-space characters are skipped, and a NUL is an error |
| JsonText.TokenBytes | src/io/json.cpp:316-386 | the characters of unquoted strings and of the three words |
| JsonPrinter.PrintString | src/io/json.cpp:640-645 | a quoted, escaped string is appended |
| JsonPrinter.PrintValue | src/io/json.cpp:611-672 | appends exactly the compact layout of the tree, large integers quoted when asked for |
| JsonPrinter.PrintArray | src/io/json.cpp:575-590 | items separated by commas, none after the last |
| JsonPrinter.PrintObject | src/io/json.cpp:592-609 | members in their order, separated by commas |
| JsonPrinter.LevelIsIrrelevant | src/io/json.cpp:575-672 | compact text does not depend on the nesting level |
| JsonText.PrintedWords | src/io/json.cpp:611-672 | null and the booleans print as those words |
| JsonText.PrintedNumbers | src/io/json.cpp:611-672 | integers print as their decimal numeral without leading zeros, in quotes exactly above 32 bits when that is asked for |
| JsonText.PrintedString | src/io/json.cpp:640-645 | a string prints as its escaped contents between quotes |
| JsonText.PrintedArrays | src/io/json.cpp:575-590 | brackets around the items with single commas between them |
| JsonText.PrintedObjects | src/io/json.cpp:592-609 | braces, quoted keys, colons and single commas |
| JsonRoundTrip.FitsIff | src/io/json.cpp:388-411 | the budget goes down by two per level and wraps: a tree fits a budget if and only if the budget is odd or exceeds twice the height |
| JsonRoundTrip.ReadsBack | src/io/json.cpp:388-440 | in front of any text that ends a value, in any layout and at any level, the reader consumes exactly the printed tree and returns its canonical form, or fails when the budget is too small |
| JsonRoundTrip.RoundTrip | src/io/json.cpp:388-672 | for every tree without reals, in compact or indented layout: reading succeeds if and only if the budget is odd or exceeds twice the height, consumes the whole text, and gives the canonical form |
| JsonFaithful.CanonIsFaithful | src/io/json.cpp:388-672 | what comes back is always a faithful tree: non-negative integers unsigned, strings and keys plain |
| JsonFaithful.CanonicalIffFaithful | src/io/json.cpp:388-672 | a tree comes back unchanged if and only if it is faithful, with no condition between the keys of an object |
| JsonFaithful.RepeatedKeysAreKept | src/variant_object.cpp:369-376 | an object that says one key twice comes back with both entries, each with its own value |
| JsonFaithful.CanonIsIdempotent | src/io/json.cpp:388-672 | a second round trip changes nothing |
| JsonPretty.PrettyPrint | src/io/json.cpp:682-773 | the loop over the flags computes the runs of a state machine, for every text that does not start with a closing bracket |
| JsonLayout.PrettyTextIsLayout | src/io/json.cpp:682-773 | on the compact text of any tree the machine produces the indented layout, ends with all flags clear at level zero, and its level never goes below zero |
| JsonText.PrettyArrays | src/io/json.cpp:682-773 | in the indented layout an item stands on its own line, indented by its depth, unless it is a container |
| JsonText.PrettyObjects | src/io/json.cpp:682-773 | a member stands on its own line with a blank after the colon |
| JsonStrip.StripUndoesLayout | src/io/json.cpp:682-773 | deleting the white space outside string literals from any layout of a tree gives its compact text back |
| JsonApi.ToString | src/io/json.cpp:674-680 | compact text of the tree |
| JsonApi.ToPrettyString | src/io/json.cpp:775-779 | indented text of the tree, which stripped of white space is the compact text |
| JsonApi.PrintAndRead | src/io/json.cpp:442-460 | print, prettily or not, and read: the canonical form if and only if the budget suffices |
| Allocator.SharesAreFair | src/network/rate_limiting.cpp:447-456 | the allocation loop hands out at most the tokens, gives no operation more than its length, leaves tokens only when all are served in full, and gives nobody more than one byte beyond an operation left short |
| Allocator.TightShares | src/network/rate_limiting.cpp:447-456 | when every operation is longer than its equal part, all tokens are used and the parts differ by at most one |
| Allocator.EnoughForEach | src/network/rate_limiting.cpp:447-456 | with a token for each, an operation gets some exactly when it asked for some |
| RateLimiter.TickDivides | src/network/rate_limiting.cpp:437-471 | bytes permitted to the started operations plus the tokens left are the tokens there were |
| RateLimiter.IterationIsFair | src/network/rate_limiting.cpp:437-471 | the fairness above for the queue itself, whatever order the sort leaves among equal lengths |
| RateLimiterRuns.StepConserves | src/network/rate_limiting.cpp:286-487 | each step conserves bytes exactly, up to a named loss (burst cap, 32-bit wrap-around, failure after being permitted) that is never negative |
| RateLimiterRuns.StepKeepsValid | src/network/rate_limiting.cpp:286-487 | the queues never hold an operation twice and the counters stay 32-bit |
| RateLimiterRuns.RunConserves | src/network/rate_limiting.cpp:286-487 | over every run: bytes transferred, permitted, refunded and remaining never exceed what was held at the start plus what was granted, wrap-around included |
| RateLimiterRuns.SteadyGrants | src/network/rate_limiting.cpp:424-435 | with one positive limit and a clock that does not go back, the tokens granted never exceed the limit times the time passed |
| RateLimiterRuns.RateIsLimited | src/network/rate_limiting.cpp:286-487 | the promise of the limiter: bytes transferred over any stretch of such a run stay below what the bucket held plus the limit times the time passed |
| RateLimitingGroup.Group.constructor | src/network/rate_limiting.cpp:234-246 | the bucket starts full |
| RateLimitingGroup.Group.Queue | src/network/rate_limiting.cpp:288-300 | queueing is the enqueue step |
| RateLimitingGroup.Group.Finish | src/network/rate_limiting.cpp:311-311 | a completed operation refunds what it was permitted and did not use |
| RateLimitingGroup.Group.Drop | src/network/rate_limiting.cpp:303-310 | an operation whose wait threw leaves both queues |
| RateLimitingGroup.Group.Allocate | src/network/rate_limiting.cpp:447-456 | the allocation loop computes the shares and what is left |
| RateLimitingGroup.Group.KickOff | src/network/rate_limiting.cpp:458-470 | operations with a permitted length start in first-come order, the others stay in order |
| RateLimitingGroup.Group.PerformAll | src/network/rate_limiting.cpp:472-485 | without a limit every queued operation starts with its full length |
| RateLimitingGroup.Group.Refill | src/network/rate_limiting.cpp:424-435 | elapsed time is clamped to a second, refunds are added, 32-bit sums wrap, the burst cap applies |
| RateLimitingGroup.Group.ProcessPendingOperations | src/network/rate_limiting.cpp:409-487 | one iteration of the loop is the tick step of the state machine |
| RateLimiterCap.TickDividesUpToCap | src/network/rate_limiting.cpp:424-471 | what an iteration under a limit starts and keeps together is the sum of tokens, refunds and grant in 32 bits, or limit times burstiness in 32 bits if that is less |
| RateLimiterCap.EveryIterationIsCapped | src/network/rate_limiting.cpp:409-487 | in every iteration of every run under a limit, bytes permitted and tokens left are together at most limit times burstiness in 32 bits |
| RateLimiterCap.OnlyTheCapLosesTokens | src/network/rate_limiting.cpp:433-437 | without wrap-around an iteration loses tokens if and only if there are more than the cap, and then it divides exactly the cap |
| RateLimiterCap.GrantIs | src/network/rate_limiting.cpp:427-433 | the grant is the limit times the microseconds passed over a million, cut off, nothing for a clock that goes back and one second at most |
| RateLimiterCap.RateIsLimitedPerSecond | src/network/rate_limiting.cpp:286-487 | the promise of the limiter in bytes per second of a million microseconds |
| RateLimiterCap.QueueInOrder | src/network/rate_limiting.cpp:414-470 | operations queued before the last iteration are gone through before those queued since |
| RateLimiterCap.FirstComeFirst | src/network/rate_limiting.cpp:458-470 | of two started operations the one that stands in front in the queue starts first |
| RateLimiterCap.OthersWait | src/network/rate_limiting.cpp:458-470 | exactly the operations without a permitted length stay in the queue |
| RateLimiterCap.AllInOrder | src/network/rate_limiting.cpp:472-485 | without a limit all start in the order of the queue, in full |
| RateLimiterCap.QueueChanges | src/network/rate_limiting.cpp:288-310 | a new operation stands last in the queue, a cancelled one is gone from it and nobody else is |
| RateLimiterCap.RefundsAre | src/network/rate_limiting.cpp:300-318 | a completed operation gives back exactly what it was permitted and did not use, a failed one nothing |
| RateLimiterProgress.IterationStartsIff | src/network/rate_limiting.cpp:437-471 | an iteration under a limit starts something if and only if there is a token and an operation of positive length |
| RateLimiterProgress.RefilledNothingIff | src/network/rate_limiting.cpp:424-437 | with nothing left over, an iteration has no tokens if and only if the cap is zero in 32 bits or the time passed is worth less than a byte |
| RateLimiterProgress.GrantedAtLeast | src/network/rate_limiting.cpp:424-435 | over a run with one positive limit and no gap above a second, the tokens granted fall short of limit times time by less than one per iteration |
| RateLimiterProgress.HastyRunStarves | src/network/rate_limiting.cpp:409-487 | a bucket that has run dry lets nothing through for as long as its iterations keep coming too soon for a whole token, or its cap is zero |
| RateLimiterProgress.StarvingInputs | src/network/rate_limiting.cpp:424-435 | such inputs: ten bytes a second with iterations every 50 ms, and a limit of 2^31 with a burstiness of two seconds |
| RateLimiterProgress.ZeroLengthWaits | src/network/rate_limiting.cpp:437-471 | under a positive limit a queued operation of length zero stays queued over every run until it is cancelled |
| RateLimiterProgress.UnlimitedPerforms | src/network/rate_limiting.cpp:472-485 | without a limit every queued operation is performed, those of length zero included |
| Crc32c.StepsIsLinear | src/crypto/crc.cpp:6-24 | the table step is linear over exclusive or |
| Crc32c.UpdateWord | src/crypto/crc.cpp:490-507 | feeding four bytes one at a time is adding them to the register and stepping four bytes |
| Crc32c.StepsOfWord | src/crypto/crc.cpp:490-507 | stepping a word is the sum of stepping its four bytes from their places |
| CrcTables.BuildTables | src/crypto/crc.cpp:6-24 | the loops of the header comment build tables of the documented recurrence |
| CrcTables.TableIsSteps | src/crypto/crc.cpp:6-24 | entry i of table j is i stepped j + 1 bytes, bit by bit |
| CrcTables.TableFeedIsFeed | src/crypto/crc.cpp:482-484 | the single-table update is eight steps of bit-serial reflected division |
| CrcTables.SliceFeedIsUpdate | src/crypto/crc.cpp:490-507 | eight table look-ups in one go equal eight single updates |
| CrcTables.SlicingBy8 | src/crypto/crc.cpp:476-514 | for every buffer, start value and address the three loops compute the bit-serial CRC of the bytes in order |
| Crc32cPolynomial.UpdateIsRemainder | src/crypto/crc.cpp:6-24 | the register after any bytes is the remainder, modulo the generator of Appendix B of RFC 4960, of start value and message as polynomials times x^32 |
| Crc32cPolynomial.RemainderDivides | src/crypto/crc.cpp:6-24 | that remainder differs from the dividend by a multiple of the generator and has degree below 32 |
| Crc32cPolynomial.TopBitGivesGenerator | src/crypto/crc.cpp:6-24 | start value zero and the byte 0x80 give the word whose bits are the exponents of the generator |
| KeccakConstants.ConstantsAreStandard | src/crypto/sha3.cpp:53-62 | the table of round constants holds what the feedback register of section 3.2.5 of FIPS 202 generates |
| Keccak.OffsetsAreStandard | src/crypto/sha3.cpp:61-62 | the offsets are the triangular numbers along the walk of section 3.2.2 of FIPS 202, and the rotations of the source are its steps |
| Keccak.EveryLaneIsWalked | src/crypto/sha3.cpp:61-62 | the walk meets every lane but the first |
| Keccak.ThetaInPlace | src/crypto/sha3.cpp:84-94 | theta of section 3.2.1 of FIPS 202, in place |
| Keccak.CycleIsRhoPi | src/crypto/sha3.cpp:96-104 | the order and the rotations of the single-temporary cycle are those of pi and rho |
| Keccak.RhoPiInPlace | src/crypto/sha3.cpp:96-104 | the cycle equals rho followed by pi (sections 3.2.2 and 3.2.3 of FIPS 202) |
| Keccak.ChiInPlace | src/crypto/sha3.cpp:106-113 | chi of section 3.2.4 of FIPS 202, in place |
| Keccak.UpdateStep | src/crypto/sha3.cpp:64-138 | the 24 rounds equal the permutation composed of the five step mappings |
| Sha3.OneByteWritten | src/crypto/sha3.cpp:145-157 | writing one byte takes the state of a message to the state of the longer message |
| Sha3.XorPadding | src/crypto/sha3.cpp:159-162 | the two bytes mixed in at the end are the padding, also where they fall on one byte |
| Sha3.FinishedIsSponge | src/crypto/sha3.cpp:159-164 | the state after finishing is the sponge of the padded message (sections 4 and 6.1 of FIPS 202) |
| Sha3Bits.PermutationIsStandard | src/crypto/sha3.cpp:64-138 | on every state of 1600 bits the 24 rounds over lanes are the bit-level permutation of section 3 of FIPS 202 |
| Sha3Bits.PadIsPadded | src/crypto/sha3.cpp:159-162 | as bits the padding is the message, 01 for SHA-3 and nothing for Keccak, then 1 0* 1 up to a multiple of 1088 |
| Sha3Bits.SqueezedBits | src/crypto/sha3.cpp:163-163 | bit n of the digest is bit n modulo 64 of lane n / 64 of the final state |
| Sha3Bits.DigestIsStandard | src/crypto/sha3.cpp:140-164 | for every message the digest is that of the bit-level standard |
| Sha3Encoder.Encoder.constructor | src/crypto/sha3.cpp:140-143 | the state of the empty message |
| Sha3Encoder.Encoder.Init | src/crypto/sha3.cpp:140-143 | resets to the state of the empty message |
| Sha3Encoder.Encoder.Update | src/crypto/sha3.cpp:145-157 | however a message is split into writes, state and position depend on the whole message only, and the position stays below 136 |
| Sha3Encoder.Encoder.Result | src/crypto/sha3.cpp:159-164 | the digest is SHA3-256 of FIPS 202, or the original Keccak, of everything written, bit for bit |
| Smaz.Decompress | src/compress/smaz.cpp:163-204 | the loop gives what a well-formed compressed text stands for |
| Smaz.LongestIsSound | src/compress/smaz.cpp:94-130 | a fragment that is found is a prefix of the input, and the reverse table has the same text under its code |
| Smaz.FindMatch | src/compress/smaz.cpp:94-130 | the search from seven bytes down, through hashed slots, finds what the slots hold: by `SmazComplete.LookupIsLongest` the longest fragment |
| Smaz.WriteRun | src/compress/smaz.cpp:146-158 | a verbatim run as it lies in the output, nothing else changed |
| Smaz.ExpandUndoesEncode | src/compress/smaz.cpp:85-204 | decompressing what is still to be written gives the verbatim buffer followed by the rest of the input |
| Smaz.Compress | src/compress/smaz.cpp:85-161 | reports the length of the compressed text and writes exactly that text, or reports one more than the room exactly when it does not fit; no verbatim run exceeds 256 bytes and nothing is written past the output |
| Smaz.CompressString | src/compress/smaz.cpp:207-215 | fails exactly on the texts whose compressed form is longer than they are |
| Smaz.RoundTrip | src/compress/smaz.cpp:85-204 | for every pair of agreeing tables decompressing undoes compressing, and compressing at most doubles a text |
| SmazTables.TablesAgree | src/compress/smaz.cpp:8-82 | every entry of the hash table is confirmed by the reverse table |
| SmazTables.TextRoundTrip | src/compress/smaz.cpp:85-204 | with the tables of the source: decompressing undoes compressing for every byte string |
| SmazTables.OneByteDoesNotFit | src/compress/smaz.cpp:207-215 | the byte 0x01 takes two bytes, so the string form rejects it |
| SmazPlaces.EveryFragmentIsPlaced | src/compress/smaz.cpp:8-82 | each of the 254 fragments stands in the slot that its text hashes to, with its code |
| SmazComplete.LookupIsLongest | src/compress/smaz.cpp:94-130 | for every input a match is found if and only if some fragment is a prefix of it, and it is the longest of those |
| SmazComplete.FragmentIsOneByte | src/compress/smaz.cpp:85-161 | each of the 254 fragments compresses to its one code |
| SmazComplete.SomeFragments | src/compress/smaz.cpp:85-161 | such as 1 for the word the and 67 for http:// |
| SmazComplete.UnmatchedIsVerbatim | src/compress/smaz.cpp:131-161 | text in which no fragment starts is written as 254 and the byte, or 255, one less than the length and the bytes, in runs of 256 |
| SmazComplete.ExpandForms | src/compress/smaz.cpp:163-204 | what the decompressor makes of each of these units and of one cut short |
| WideShift.ShiftLeft | src/uint128.cpp:170-182 | the masks move exactly the bits that cross from the low half to the high half |
| WideShift.ShiftRight | src/uint128.cpp:206-218 | the same to the right |
| UInt128.U128.Less | include/fc/uint128.hpp:48-48 | comparing halves compares numbers |
| UInt128.U128.Increment | include/fc/uint128.hpp:54-54 | plus one modulo 2^128 |
| UInt128.U128.Decrement | include/fc/uint128.hpp:55-55 | minus one modulo 2^128 |
| UInt128.U128.Negated | include/fc/uint128.hpp:51-51 | the negative modulo 2^128 |
| UInt128.U128.AddAssign | include/fc/uint128.hpp:65-65 | sum modulo 2^128, the carry found by comparison, also when a number is added to itself |
| UInt128.U128.SubAssign | include/fc/uint128.hpp:66-66 | difference modulo 2^128 |
| UInt128.U128.OrAssign | include/fc/uint128.hpp:59-59 | bitwise or of the whole numbers |
| WordBits.BitwiseIs | include/fc/uint128.hpp:59-59 | bit by bit, the or, and, and exclusive or that the wide operations and the ciphers rest on |
| UInt128.U128.ShlAssign | src/uint128.cpp:154-187 | multiplication by a power of two modulo 2^128, for every amount |
| UInt128.U128.ShrAssign | src/uint128.cpp:189-222 | floor division by a power of two, for every amount |
| UInt128.Schoolbook | src/uint128.cpp:259-292 | the limb products that are kept make up the product modulo 2^128 |
| UInt128.U128.MulAssign | src/uint128.cpp:257-295 | product modulo 2^128 from 32-bit limbs, also when a number is multiplied by itself |
| UInt128.FullProduct | src/uint128.cpp:297-349 | the exact 256-bit product, no carry lost from the top word, also when the results are the operands |
| UInt128Divide.OneBit | src/uint128.cpp:32-40 | deciding one bit keeps answer times divisor plus rest |
| UInt128Divide.Align | src/uint128.cpp:27-30 | terminates with the divisor shifted past the dividend or to the top bit |
| UInt128Divide.Divide | src/uint128.cpp:13-45 | terminates with quotient and remainder for every divisor but zero, and fails on zero changing nothing; outputs may be inputs |
| UInt128Divide.ModAssign | src/uint128.cpp:250-255 | remainder, also of a number by itself |
| UInt128Text.ToText | src/uint128.cpp:131-151 | the decimal numeral, written inside the buffer, whose terminator nothing overwrites |
| UInt128Text.FromText | src/uint128.cpp:47-117 | minus sign, radix prefix, digits up to the first that does not belong, all modulo 2^128 |
| UInt128Text.PrintedIsDecimal | src/uint128.cpp:63-76 | the numeral of a number other than zero never triggers the octal rule |
| UInt128Text.RoundTrip | src/uint128.cpp:47-151 | printing any number and reading it gives the number; with a minus sign in front, its negative |
| UInt128Radix.HexadecimalIs | src/uint128.cpp:63-117 | after 0x, digits of either case up to the first other character stand for their value in base 16 modulo 2^128 |
| UInt128Radix.OctalIs | src/uint128.cpp:63-117 | after a zero, the same in base 8 |
| UInt128Radix.DecimalIs | src/uint128.cpp:63-117 | otherwise in base 10 |
| UInt128Radix.PositiveIs | src/uint128.cpp:47-117 | a minus sign gives the negative modulo 2^128 |
| UInt128Radix.OtherRadixRoundTrip | src/uint128.cpp:47-117 | the hexadecimal and octal numerals of every number are read as that number |
| DigestShift.ShiftedLeftValue | src/crypto/_digest_common.cpp:5-28 | a left shift of n bytes by any number of bits multiplies by a power of two modulo 256^n |
| DigestShift.ShiftedRightValue | src/crypto/_digest_common.cpp:29-52 | a right shift divides by a power of two |
| DigestShift.ShiftL | src/crypto/_digest_common.cpp:14-28 | the byte move and the bit pass, in place the second time, compute that shift |
| DigestShift.ShiftR | src/crypto/_digest_common.cpp:38-52 | the same to the right, from the last byte to the first |
| BigEndian.MemcmpIsOrder | src/crypto/sha256.cpp:89-97 | comparing bytes from the front compares the big-endian numbers |
| Sha256.Hash.LessThan | src/crypto/sha256.cpp:95-97 | the order of hashes is the order of their values |
| Sha256.LogsAreOrdered | src/crypto/sha256.cpp:89-134 | of two hashes the one that is not smaller as bytes has no smaller logarithm |
| Sha256.Hash.Clz | src/crypto/sha256.cpp:173-204 | 256 for zero, otherwise 255 less the binary logarithm |
| Sha256.Hash.ApproxLog32 | src/crypto/sha256.cpp:111-134 | eight bits of exponent and 24 bits of fraction of the value of the hash |
| Sha256.Hash.SetToInverseApproxLog32 | src/crypto/sha256.cpp:136-161 | the hash whose leading one and fraction are those of the argument, shifted to its exponent |
| ApproxLog.LogIsMonotone | src/crypto/sha256.cpp:111-134 | a larger value never has a smaller logarithm |
| ApproxLog.LogIs | src/crypto/sha256.cpp:111-134 | between two powers of two: the exponent in steps of 2^24 plus the part of the way to the next power, cut off |
| ApproxLog.LogOfInverse | src/crypto/sha256.cpp:111-161 | logarithm of the inverse for every 32-bit argument and beyond: the argument less the low bits that fall out below exponent 24 |
| ApproxLog.LogOfInverseIsExactIff | src/crypto/sha256.cpp:111-161 | it is the argument itself if and only if the exponent is at least 24 or those low bits are zero |
| ApproxLog.InverseOfLog | src/crypto/sha256.cpp:111-161 | the other way round a hash keeps its top 25 bits; the hash 1 becomes 0 |
| Radix.RecodeRoundTrip | src/crypto/base58.cpp:505-606 | changing the base of a numeral and changing it back, leading zeros kept, gives the same digits |
| Base58.Encode | src/crypto/base58.cpp:505-550 | the division loop, the leading ones and the reversal compute the base-58 text |
| Base58.Decode | src/crypto/base58.cpp:560-606 | reads a C string that is one run of alphabet letters between white space, and fails on every other |
| Base58.DecodedOfEncoded | src/crypto/base58.cpp:505-606 | decoding undoes encoding for every byte string, whatever white space is around the text |
| Base58.EncodedOfDecoded | src/crypto/base58.cpp:505-606 | whatever decodes is, up to white space, the encoding of its bytes |
| Base58.LettersAreCodes | src/crypto/base58.cpp:505-606 | a text of letters decodes to exactly the bytes it encodes: a bijection |
| Alphabets.LettersAreAlphabet | src/crypto/base58.cpp:502-502 | the letters are those of the alphabet string, in its order |
| Alphabets.EncodedMeans | src/crypto/base58.cpp:505-550 | the text is the numeral of the big-endian number of the bytes, with a leading one for each leading zero byte |
| Alphabets.DecodesOnly | src/crypto/base58.cpp:560-606 | whatever decodes is letters of the alphabet between white space, and those letters are the encoding of the result |
| Alphabets.SpacesAre | src/crypto/base58.cpp:565-590 | the six white-space characters |
| Base36.ToBase36 | src/crypto/base36.cpp:8-38 | digits backwards from the end of the buffer, a zero digit for every leading zero byte; the extra turn of the loop, due to a division that yields the old value, writes nothing |
| Base36.BufferSuffices | src/crypto/base36.cpp:23-36 | the write position never leaves the buffer of 8/5 of the length plus two, because 256^5 < 36^8 |
| Base36.FromBase36 | src/crypto/base36.cpp:45-81 | powers summed from the right, unknown characters as zero, leading zeros counted |
| Base36.DecodedOfEncoded36 | src/crypto/base36.cpp:8-81 | decoding undoes encoding for every byte string |
| Base36.EncodedOfDecoded36 | src/crypto/base36.cpp:8-81 | a text is the encoding of the bytes it decodes to if and only if it is all digits and small letters |
| Alphabets.DigitsAreAlphabet | src/crypto/base36.cpp:23-67 | digits and small letters are written, capitals are read as well, anything else counts as zero |
| Alphabets.Encoded36Means | src/crypto/base36.cpp:8-38 | the text is the numeral of the big-endian number of the bytes, with a leading zero for each leading zero byte |
| Base36.WriteBackwards | src/crypto/base36.cpp:25-33 | the loop ends with exactly the digits in the buffer and its terminator intact |
| Blowfish.DecipherUndoesEncipher | src/crypto/blowfish.cpp:356-391 | for any subkeys and S-boxes deciphering undoes enciphering and enciphering undoes deciphering |
| Blowfish.EncryptBlock | src/crypto/blowfish.cpp:356-372 | the sixteen rounds as written are the Feistel network over the subkeys in order |
| Blowfish.DecryptBlock | src/crypto/blowfish.cpp:375-391 | the same over the subkeys in reverse order |
| Blowfish.FromBlockOfToBlock | src/crypto/blowfish.cpp:394-446 | eight bytes survive becoming a block |
| Blowfish.ToBlockOfFromBlock | src/crypto/blowfish.cpp:394-446 | a block survives becoming eight bytes |
| BlowfishStandard.FOfBytes | src/crypto/blowfish.cpp:14-23 | the round function on a word with bytes a, b, c, d is ((S1[a] + S2[b]) ^ S3[c]) + S4[d] modulo 2^32 |
| BlowfishStandard.EncipherIsTextbook | src/crypto/blowfish.cpp:356-391 | the cipher is sixteen rounds of mixing in a subkey, mixing in the round function and swapping, the last swap undone, and two subkeys more; deciphering takes the subkeys in reverse |
| BlowfishStandard.BlocksAreBigEndian | src/crypto/blowfish.cpp:394-446 | the halves of a block are big-endian numbers |
| BlowfishModes.TurnUndone | src/crypto/blowfish.cpp:450-533 | in each mode one block is undone with the same next chain block |
| BlowfishModes.CryptUndone | src/crypto/blowfish.cpp:450-622 | for any key, chain block and buffer of whole blocks, decryption undoes encryption and encryption undoes decryption, in ECB, CBC and CFB |
| BlowfishStandard.CryptIsMode | src/crypto/blowfish.cpp:450-622 | block by block: ECB, CBC and CFB by their textbook equations from the blocks before |
| BlowfishModes.WriteBlock | src/crypto/blowfish.cpp:425-446 | eight bytes written from the last to the first, nothing else changed |
| BlowfishModes.Cipher.EncryptCbc | src/crypto/blowfish.cpp:544-555 | the loop computes the mode from the current chain block, with one buffer or two, and touches nothing beyond the blocks |
| BlowfishModes.Cipher.EncryptCfb | src/crypto/blowfish.cpp:556-567 | the loop computes the mode from the current chain block, with one buffer or two, and touches nothing beyond the blocks |
| BlowfishModes.Cipher.EncryptEcb | src/crypto/blowfish.cpp:568-576 | the loop computes the mode from the current chain block, with one buffer or two, and touches nothing beyond the blocks |
| BlowfishModes.Cipher.DecryptCbc | src/crypto/blowfish.cpp:588-599 | the loop computes the mode from the current chain block, with one buffer or two, and touches nothing beyond the blocks |
| BlowfishModes.Cipher.DecryptCfb | src/crypto/blowfish.cpp:600-612 | the loop computes the mode from the current chain block, with one buffer or two, and touches nothing beyond the blocks |
| BlowfishModes.Cipher.DecryptEcb | src/crypto/blowfish.cpp:613-621 | the loop computes the mode from the current chain block, with one buffer or two, and touches nothing beyond the blocks |
| BlowfishModes.Cipher.EncryptBuffer | src/crypto/blowfish.cpp:538-577 | fails, changing nothing, for a length that is zero or no multiple of eight, otherwise encrypts |
| BlowfishModes.Cipher.DecryptBuffer | src/crypto/blowfish.cpp:581-622 | the same for decryption |
| BlowfishModes.Cipher.EncryptInPlace | src/crypto/blowfish.cpp:450-489 | in place: the result of the two-buffer form on a copy |
| BlowfishModes.Cipher.DecryptInPlace | src/crypto/blowfish.cpp:493-534 | the same for decryption |
| BlowfishModes.Cipher.ThereAndBack | src/crypto/blowfish.cpp:450-534 | encrypting and decrypting a buffer in place leaves it as it was |
| BlowfishModes.Cipher.ResetChain | include/fc/crypto/blowfish.hpp:149-149 | back to the first chain block |
| WebAuthn.HandlerIsCorrect | src/crypto/elliptic_webauthn.cpp:21-185 | on the events of every document nested at most 2^32 deep the handler accepts if and only if the root is an object in which every member named challenge, origin or type is a string, and then holds what those members say |
| WebAuthn.CollectKeepsLast | src/crypto/elliptic_webauthn.cpp:69-92 | of several members with one name the last string counts |
| WebAuthnNames.ThreeStrings | src/crypto/elliptic_webauthn.cpp:113-135 | the members challenge, origin and type are stored as such |
| WebAuthnNames.OtherNames | src/crypto/elliptic_webauthn.cpp:113-135 | every other member is passed over; keys are compared up to their first NUL |
| WebAuthnNames.AcceptsIs | src/crypto/elliptic_webauthn.cpp:37-185 | a document is acceptable if and only if it is an object whose members of these three names are strings |
| WebAuthnBounds.ArraysAreHandledIff | src/crypto/elliptic_webauthn.cpp:21-185 | a document without objects below its root is handled correctly if and only if it should be refused or is nested at most 2^32 deep |
| WebAuthnBounds.BoundIsExact | src/crypto/elliptic_webauthn.cpp:21-185 | all documents nested no deeper than a bound are handled correctly if and only if the bound is at most 2^32 |
| WebAuthnBounds.TooDeepIsRejected | src/crypto/elliptic_webauthn.cpp:94-184 | with 2^32 + 1 arrays in each other a document that should be accepted is refused |
| WebAuthnBounds.NestedKeyIsStored | src/crypto/elliptic_webauthn.cpp:94-152 | with objects in each other a document is accepted, but the type stored is that of a member 2^32 levels below the root |
| WebAuthnBounds.CounterCountsNesting | src/crypto/elliptic_webauthn.cpp:26-185 | after every prefix of the events, while the root is open, the counter is the number of other open containers and is positive exactly in the nested state |
| WebAuthnBounds.CountingBoundIsExact | src/crypto/elliptic_webauthn.cpp:26-185 | that holds for all documents nested no deeper than a bound if and only if the bound is below 2^32 |
| WebAuthn.RunNested | src/crypto/elliptic_webauthn.cpp:37-184 | inside a nested container a whole document changes nothing |
| WebAuthn.Handler.BasicStuff | src/crypto/elliptic_webauthn.cpp:37-67 | the method takes the state machine's step, and refuses without changing anything where there is none |
| WebAuthn.Handler.String | src/crypto/elliptic_webauthn.cpp:69-92 | the method takes the state machine's step, and refuses without changing anything where there is none |
| WebAuthn.Handler.StartObject | src/crypto/elliptic_webauthn.cpp:94-112 | the method takes the state machine's step, and refuses without changing anything where there is none |
| WebAuthn.Handler.Key | src/crypto/elliptic_webauthn.cpp:113-135 | the method takes the state machine's step, and refuses without changing anything where there is none |
| WebAuthn.Handler.EndObject | src/crypto/elliptic_webauthn.cpp:136-152 | the method takes the state machine's step, and refuses without changing anything where there is none |
| WebAuthn.Handler.StartArray | src/crypto/elliptic_webauthn.cpp:153-169 | the method takes the state machine's step, and refuses without changing anything where there is none |
| WebAuthn.Handler.EndArray | src/crypto/elliptic_webauthn.cpp:170-184 | the method takes the state machine's step, and refuses without changing anything where there is none |
| WebAuthn.Handler.Parse | src/crypto/elliptic_webauthn.cpp:189-193 | fed with the events of any document the object takes the state machine's run; where that is correct, it is accepted exactly when it should be, with the last strings stored and the counter back at zero |
| Ntp.Bswap64Twice | src/network/ntp.cpp:57-76 | reversing the bytes twice is the identity |
| Ntp.MicrosOfFraction | src/network/ntp.cpp:57-76 | the half that one conversion adds before cutting off shifts the result by one microsecond exactly when nothing is cut off |
| Ntp.TimeRoundTrip | src/network/ntp.cpp:57-76 | the exact result of converting any signed 64-bit time to a timestamp and back, wrap-around included |
| Ntp.TimeIsKept | src/network/ntp.cpp:57-76 | for non-negative times whose seconds fit 32 bits: the time itself, or one microsecond later exactly when 15625 divides twice the microseconds plus one |
| Ntp.TimeIsKeptIff | src/network/ntp.cpp:57-76 | those are the only times that are kept |
| Ntp.StampRoundTrip | src/network/ntp.cpp:57-76 | a timestamp converted to a time and back never goes back and gains at most 4294 units of 2^-32 seconds, for all 64-bit timestamps |
| NtpAnchor.TimestampIs | src/network/ntp.cpp:67-76 | the timestamp of a time: 2208988800 seconds more, and the fraction half a microsecond late |
| NtpAnchor.TimeIs | src/network/ntp.cpp:57-65 | the time of a timestamp from 1970 on, rounded to a microsecond |
| NtpAnchor.EpochIs | src/network/ntp.cpp:67-76 | the timestamp of time zero, in host order and as bytes |
| NtpAnchor.BswapReverses | src/network/ntp.cpp:57-76 | swapping is reversing the eight bytes |

## Left out

- WebAuthn.HandlerIsCorrect: holds for documents nested at most 2^32 deep, the exact bound over all documents (`WebAuthnBounds.BoundIsExact`) and over those made of arrays (`WebAuthnBounds.ArraysAreHandledIff`); which deeper documents with objects come out right by luck depends on their nested keys and is not stated.
- JsonRoundTrip.RoundTrip: covers trees without reals and blobs, whose text depends on floating-point formatting and base64.
- JsonReader.ReadNumber: which texts convert to a real, and to which, is left to a parameter.
- JsonPretty.PrettyPrint: requires a text that does not start with a closing bracket, where the source would read the character before the first.
- RateLimitingGroup.Group.ProcessPendingOperations: operations are values with an identity instead of pointers; the clock and the order that the sort leaves among equal lengths are parameters.
- Smaz.Decompress: requires a text whose last verbatim run is complete; on others the source reads past its input.
- Smaz.FindMatch: takes plain characters as signed, as the hash of bytes above 127 depends on it; the round trip does not.
- Base36.FromBase36: the warning about an unknown character is not modelled.
- UInt128Text.ToText: the function-static buffer is a parameter whose last but one byte is zero at first.
- UInt128.U128.MulAssign: division by `/=` uses a library type and is not modelled; `divide` is.
- Sha256.Hash.Clz: the table of 256 entries is written as its ranges; likewise the alphabets of base 58 and base 36.
- BlowfishModes.Cipher.EncryptInPlace: the in-place loops are the two-buffer loops with both buffers the same, as they are in the source line by line.
- Values passed to and from the 64-bit and 32-bit fields of the library are bounded integers; sizes and positions of buffers are unbounded, so texts of 2^31 bytes and more behave as shorter ones.
- What a function has already written when it throws, except where a contract says so; kinds and messages of exceptions.
- The key schedule of Blowfish, the literal CRC tables (any tables of the documented recurrence are covered) and hash functions other than SHA-3.
- Doubles (`inverse_approx_log_32_double`, `average_rate_meter`), hex, base64, bloom filters, `popcount`, city hash and blake2.
- The strict and relaxed JSON parsers, yield and deadline callbacks, sockets, fibers, logging, and everything behind OpenSSL, secp256k1 and GMP; big numbers are integers.
