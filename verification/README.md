# ETWriter text-editing engine, modelled in Dafny

ETWriter is a browser editor. It edits files in place or in bulk over a folder tree. Its engine is a handful of pure functions in `script.js`, and this project models them:

- **Command scripts.** `parseCommands` turns a script of `OPERATOR|arg1|arg2` lines into commands. `unescapeArg` decodes the escapes in each argument.
- **Interpreter.** `applyCommandsToText` applies the commands to a text, line by line. It resolves line numbers with `insertionPosAfterLine` and `lineIndex`.
- **Hex view.** `bufferToHexDump` and `hexDumpToBuffer` convert between bytes and their hex dump.
- **Bulk-run gate.** `isLikelyText`, `skipByExt` and `isSupportedTextExt` decide which files the bulk run edits.

The modules:

| module | file | what it holds |
|---|---|---|
| `Wrappers` | `wrappers.dfy` | `Option` and `Result`, with `GetOr` for `??` |
| `JsStrings` | `js_strings.dfy` | the JavaScript string primitives the engine uses: `indexOf`, `includes`, `split`/`join` with a literal separator, `trim`, case mapping, `split(/\r?\n/)` |
| `HexCodec` | `hex_codec.dfy` | the hex dump, its reader and the round trip |
| `Classifier` | `classifier.dfy` | extension extraction, the two extension lists, the zero-byte scan |
| `Commands` | `commands.dfy` | operators, unescaping, line and script parsing with all-or-nothing failure |
| `Interpreter` | `interpreter.dfy` | the resolvers, one command as a function on the line list, whole scripts, and the imperative `applyCommandsToText` |

Where the engine works by changing things step by step, the model is imperative:

- the command loop and the push loops of `applyCommandsToText`
- the hex loops
- the early-exit zero-byte scan
- the parse loop

Each method is proved equal to a functional specification. The properties are stated about that specification.

The mapping steps of `FIND_INSERT`, `FIND_REPLACE` and `FIND_DELETE`, the resolvers and `unescapeArg` are pure functions.

Some behaviours of the code are easy to misread. The model follows the code in each of them:

- **The `APPEND_LINE` alias.** The comment at `script.js:572` says the parser should accept `APPEND_LINE` as an alias for `LINE_APPEND`, and line 573 maps it. The operator-table lookup at lines 565-570 runs first, though, and `APPEND_LINE` is not in the table. The line is therefore refused as an unknown command, and the mapping never runs (`Commands.AppendLineRejected`).
- **Unescaping a doubled backslash.** `unescapeArg` replaces `\n` first, then `\t`, then the doubled backslash. So the text backslash, backslash, `n` becomes a backslash followed by a line feed, not a backslash followed by `n` (`Commands.UnescapeDoubledBackslash`).
- **Hex runs.** The regular expression `/[0-9a-fA-F]{2}/g` takes consecutive pairs from any run of hex digits and drops an odd last digit. For example, `abc` reads as the single byte `0xab` (`HexCodec.DecodeRun`).
- **The denylist.** `isSupportedTextExt` checks the denylist before the allowlist. No extension is on both lists, so the denylist changes no outcome (`Classifier.ListsDisjoint`, `Classifier.IsSupportedTextExt`).
- **The empty needle.** `split('')` cuts a line into its characters, and `includes('')` always holds. As a result:
  - `FIND_REPLACE` with an empty needle puts the replacement between every two characters (`JsStrings.ReplaceEmptyPattern`).
  - `FIND_DELETE` with an empty needle changes nothing (`Interpreter.DeleteEmptyNeedle`).
  - `FIND_APPEND` and `FIND_BREAK` with an empty needle add a line after every line.
- **Parse errors.** Both thrown messages carry the upper-cased operator text. Only the missing-arguments message also carries the required argument count. Neither carries the script line number (`Commands.ErrorMessageDistinct`).
- **Line endings.** The text is split at `\r?\n` and joined with `\n`, so even the empty script turns every `\r\n` into `\n` (`Interpreter.EmptyScript`).

## Model

| member | source | states |
|---|---|---|
| JsStrings.IndexOf | script.js:610 | the result is the leftmost index where the needle occurs, and is absent exactly when the needle occurs nowhere |
| JsStrings.Contains | script.js:610 | `includes` holds exactly when the needle occurs at some index |
| JsStrings.Chars | script.js:631 | `split('')` gives one one-character piece per character, in order |
| JsStrings.SplitOnPiece | script.js:560 | every piece of a split but the last is followed by the first match of the separator in what remains |
| JsStrings.SplitOnLast | script.js:560 | the last piece of a split holds no separator |
| JsStrings.SplitWithoutMatch | script.js:560 | a separator that does not occur leaves the string in one piece |
| JsStrings.SplitOn | script.js:560 | a split by a literal separator gives at least one piece |
| JsStrings.SplitOnCount | script.js:560 | a split by a non-empty separator gives one piece exactly when the separator does not occur |
| JsStrings.SplitAtChar | script.js:560 | splitting on a one-character separator cuts at its first occurrence |
| JsStrings.JoinSplit | script.js:631 | joining the pieces of a split with the same separator rebuilds the string, for every separator including the empty one |
| JsStrings.JoinLength | script.js:672 | a join adds exactly one separator between neighbouring pieces |
| JsStrings.JoinLast | script.js:672 | joining two or more lines is joining all but the last, then the separator, then the last line |
| JsStrings.ReplaceAllLength | script.js:553 | a split-and-join replacement changes the length by the length difference once per occurrence |
| JsStrings.ReplaceAllWithoutMatch | script.js:631 | a needle that does not occur leaves the line as it is |
| JsStrings.ReplaceNotLonger | script.js:553 | replacing by something no longer never lengthens the text |
| JsStrings.ReplaceEmptyPattern | script.js:631 | with the empty needle the empty line stays empty, a one-character line is unchanged, and a longer line gets the replacement between every two characters, so its length grows by the replacement length once per gap |
| JsStrings.Trim | script.js:557 | `trim` keeps the part between leading and trailing white space; the result neither starts nor ends with white space and is empty exactly when the input is all white space |
| JsStrings.TrimmedUnchanged | script.js:557 | a string with no white space at either end is its own trim |
| JsStrings.ToUpper | script.js:561 | `toUpperCase` keeps no lower-case ASCII letter |
| JsStrings.ToLower | script.js:532 | `toLowerCase` keeps the length, turns every ASCII capital into its small letter and the Kelvin sign into `k`, and changes no other character |
| JsStrings.UpperUnchanged | script.js:561 | upper-casing leaves capitals, digits and `_` alone |
| JsStrings.UpperIgnoresCase | script.js:561 | any mix of cases of a capitalised word upper-cases to the word |
| JsStrings.LowerIdempotent | script.js:532 | lower-casing twice is lower-casing once |
| JsStrings.SplitLines | script.js:580 | splitting at `\r?\n` always gives at least one line |
| JsStrings.SplitLinesNoLineFeed | script.js:580 | no line of the split holds a line feed |
| JsStrings.SplitLinesJoin | script.js:580 | text without carriage returns is rebuilt by joining its lines with `\n` |
| JsStrings.SplitLinesNormalises | script.js:580 | joining the lines of any text with `\n` gives the text with every `\r\n` turned into `\n` |
| HexCodec.LowerDigit | script.js:501 | the digit for a value below 16 is a lower-case hex digit that reads back as that value |
| HexCodec.ByteToHex | script.js:501 | `toString(16).padStart(2,'0')` gives two lower-case hex digits whose value is the byte |
| HexCodec.HexMatches | script.js:509 | every match of `/[0-9a-fA-F]{2}/g` is two hex digits, and the matches fit in the text |
| HexCodec.DecodeHex | script.js:508-515 | one byte per match |
| HexCodec.BufferToHexDump | script.js:496-506 | the loop builds the space-separated dump, which reads back as the input bytes, and one ASCII character per byte |
| HexCodec.HexDumpToBuffer | script.js:508-515 | the loop fills the output array with the value of each match, in order |
| HexCodec.HexRoundTrip | script.js:496-515 | reading the dump of any bytes gives those bytes back |
| HexCodec.HexDumpLayout | script.js:505 | the dump of n bytes is 3n-1 characters, with byte i at position 3i and a space after every byte but the last |
| HexCodec.DecodeAcrossSeparator | script.js:509 | a non-hex character splits the text into parts that are read independently |
| HexCodec.DecodeRun | script.js:509 | a run of hex digits reads as its consecutive pairs, and an odd last digit is dropped |
| HexCodec.DecodeIgnoresCase | script.js:509 | upper- and lower-case hex digits read alike |
| HexCodec.AsciiDumpFaithful | script.js:502-503 | the ASCII view shows a byte as itself exactly when it is printable (32 to 126), and always shows a printable character |
| Classifier.Extension | script.js:532 | the extension is the lower-cased text after the last dot, or the whole lower-cased name when there is no dot |
| Classifier.LastPieceAfterLastDot | script.js:532 | the last piece of `split('.')` is the text after the last dot |
| Classifier.ExtensionIgnoresCase | script.js:532 | two names that lower-case alike, such as `a.TXT` and `A.txt`, have the same extension |
| Classifier.IsLikelyText | script.js:531-543 | a file is likely text exactly when its extension is on the allowlist and none of its first 4096 bytes is zero |
| Classifier.ScanHead | script.js:536-541 | the scan loop of `isLikelyText`, which stops at the first zero, reports a clean head exactly when none of the first 4096 bytes is zero |
| Classifier.ListsDisjoint | script.js:544 | no denied extension is on the allowlist |
| Classifier.IsSupportedTextExt | script.js:545-550 | the denylist check followed by the one-byte probe accepts exactly the allowlisted extensions |
| Classifier.IsEligible | script.js:986 | the bulk run's combined gate is the allowlist plus the zero-byte scan |
| Commands.RequiredArgs | script.js:565-568 | the one-argument operators are exactly `FIND_BREAK`, `FIND_DELETE`, `LINE_BREAK` and `LINE_DELETE`; the others need two |
| Commands.OpNameShape | script.js:566-567 | operator names are capitals and `_` only |
| Commands.LookupOp | script.js:565-568 | the table finds an operator exactly when the text is that operator's name |
| Commands.LookupOpName | script.js:565-568 | every operator is found under its own name |
| Commands.ErrorMessageDistinct | script.js:570-571 | the thrown message identifies the error: two errors with the same message are the same error, name and required count included |
| Commands.UnescapeArg | script.js:552-554 | unescaping never lengthens an argument and leaves text without a backslash unchanged |
| Commands.UnescapeDoubledBackslash | script.js:553 | backslash, backslash, `n` unescapes to a backslash followed by a line feed |
| Commands.NonEmpty | script.js:557 | `filter(Boolean)` keeps every non-empty line as often as it occurs and drops every empty one, so the result is the input less its empty lines; nothing is dropped when no line is empty |
| Commands.NonEmptyConcat | script.js:557 | the filter works line by line: the filter of two line lists in turn is the two filters in turn, and one line is kept exactly when it is not empty |
| Commands.ScriptLines | script.js:557 | the script yields at most one line per line of the script, and a script on one line yields that line trimmed, or nothing when it is blank |
| Commands.ScriptLinesTrimmed | script.js:557 | every line handed to the parser is non-empty and already trimmed |
| Commands.ParseFields | script.js:561-574 | a line parses exactly when its trimmed, upper-cased first field names an operator and enough fields follow; the command carries the unescaped fields 1 and 2; an unknown name fails with `UnknownCommand` of that name, and too few fields fail with `MissingArgs` of the name and the required count |
| Commands.ParseLine | script.js:560-571 | every operator needs an argument, so a line without a `|` never parses |
| Commands.CollectStops | script.js:570-571 | once a line fails, the whole script fails with that line's error |
| Commands.CollectOk | script.js:559-576 | a script parses exactly when every line does, with one command per line in order |
| Commands.CollectFirstError | script.js:570-571 | a failing script reports the error of its first failing line |
| Commands.ParseLines | script.js:559-576 | the parse loop computes the all-or-nothing parse of the lines |
| Commands.ParseCommands | script.js:556-577 | `parseCommands` is that parse of the trimmed, non-blank lines of the script |
| Commands.OperatorOfName | script.js:561 | an operator's own name reads as itself after trimming and upper-casing |
| Commands.ParseLineOk | script.js:560-574 | a line naming an operator with enough fields parses to that command |
| Commands.ParseLineSameFields | script.js:560-563 | two lines parse alike when their operator fields read the same and the other fields agree |
| Commands.ParseRendered | script.js:560-574 | a command written out on one line as its name and two arguments joined by bars, with no bar or backslash in the arguments, parses back to itself |
| Commands.OperatorSpelling | script.js:561 | the operator may be written in any case and padded with blanks |
| Commands.AppendLineRejected | script.js:565-573 | a line whose operator field is `APPEND_LINE` is refused as an unknown command, so the alias never takes effect |
| Commands.ParseLineUnknown | script.js:570 | a line whose operator field names no operator fails with that field as the unknown command |
| Interpreter.InsertionPosAfterLine | script.js:584-591 | the splice position is defined exactly for finite numbers and lies in `[0, len]`; a line strictly inside is spliced after, -1 or a number past the end means the end, and 0 or any other non-positive number means the start |
| Interpreter.LineIndex | script.js:595-601 | a target exists exactly when the number is finite, the list is not empty and the number is in -1..len; the index is below len; 0 is the first line, -1 the last, and 1..len are 1-indexed |
| Interpreter.InsertAfterNeedle | script.js:624-626 | `FIND_INSERT` on one line is the split-and-join replacement of the needle by the needle followed by the text, and a line without the needle is left as it is |
| Interpreter.AfterEachMatch | script.js:606-623 | the push loop gives one extra line per matching line |
| Interpreter.Step | script.js:604-669 | the in-line `FIND_*` commands and `LINE_REPLACE` keep the line count; `FIND_APPEND`/`FIND_BREAK` add one line per match; `LINE_APPEND`/`LINE_BREAK` add a line exactly when the number is finite; `LINE_DELETE` removes one exactly when a target resolves |
| Interpreter.Run | script.js:603-670 | running the commands in order; a script made only of `FIND_INSERT`, `FIND_REPLACE`, `FIND_DELETE` and `LINE_REPLACE` keeps the line count |
| Interpreter.ApplyCommand | script.js:604-669 | the switch on the operator computes one step of the script |
| Interpreter.PushAfterMatches | script.js:607-612 | the push loop computes `AfterEachMatch` |
| Interpreter.ApplyCommandsToText | script.js:579-673 | the command loop computes the text split into lines, run through every command in order, and joined with `\n` |
| Interpreter.LineAppendPlacement | script.js:641-647 | `LINE_APPEND` with number n and text x puts x right after line n inside the list, at the end for -1 or past the end, and first for other non-positive n |
| Interpreter.LineBreakIsEmptyAppend | script.js:648-654 | `LINE_BREAK` with number n is `LINE_APPEND` with number n and empty text |
| Interpreter.LineReplaceTarget | script.js:655-661 | `LINE_REPLACE` changes exactly the resolved line, or nothing |
| Interpreter.LineDeleteTarget | script.js:662-668 | `LINE_DELETE` removes exactly the resolved line and moves later ones up, or does nothing |
| Interpreter.OutOfRangeIsNoOp | script.js:596-599 | a number outside -1..len, or an empty list, makes `LINE_DELETE` and `LINE_REPLACE` no-ops |
| Interpreter.NotFiniteIsNoOp | script.js:584-601 | a non-finite number makes every `LINE_*` command a no-op |
| Interpreter.AppendThenDelete | script.js:641-668 | appending after line n and then deleting line n+1 restores the lines, for 0 <= n <= len |
| Interpreter.AppendLastThenDeleteLast | script.js:641-668 | appending at -1 and then deleting -1 restores the lines |
| Interpreter.ReplaceThenRestore | script.js:655-661 | replacing a line and then writing back its old text restores the lines |
| Interpreter.EmptyNeedleOccurs | script.js:610 | the empty needle is found in every line |
| Interpreter.FindLeavesOtherLines | script.js:624-638 | `FIND_INSERT`, `FIND_REPLACE` and `FIND_DELETE` leave every line without the needle unchanged |
| Interpreter.InsertIsReplace | script.js:624-633 | `FIND_INSERT` of s after needle n equals `FIND_REPLACE` of n by n followed by s: the `includes` guard changes nothing |
| Interpreter.ReplaceBySelf | script.js:629-633 | replacing a needle by itself changes nothing, the empty needle included |
| Interpreter.DeleteEmptyNeedle | script.js:634-638 | `FIND_DELETE` with the empty needle changes nothing |
| Interpreter.DeleteNotIdempotent | script.js:634-638 | `FIND_DELETE` of `ab` turns `aabb` into `ab`, and a second run turns that into an empty line |
| Interpreter.AfterEachMatchLayout | script.js:606-623 | after `FIND_APPEND`/`FIND_BREAK` each original line sits after the lines added for earlier matches, and is followed by the added line exactly when it holds the needle |
| Interpreter.AfterEachMatchWithoutMatch | script.js:606-623 | a needle no line holds makes `FIND_APPEND`/`FIND_BREAK` no-ops |
| Interpreter.RunConcat | script.js:603-670 | running two scripts in turn is running their concatenation |
| Interpreter.EmptyScript | script.js:579-673 | the empty script turns every `\r\n` of the text into `\n` and changes nothing else, so it gives back any text without carriage returns |
| Interpreter.LineDeleteExamples | script.js:662-668 | on three lines, `LINE_DELETE` with 0 removes the first, with -1 the last, and with 5 nothing |
| Interpreter.LineAppendExamples | script.js:641-647 | on `a`, `b`, `LINE_APPEND` of X with 0 gives `X`, `a`, `b`, and with -1 gives `a`, `b`, `X` |
| Interpreter.OneLine | script.js:580 | a text without line feeds is one line |
| Interpreter.FindReplaceExample | script.js:629-633 | `FIND_REPLACE` of `foo` by `bar` on `foo foo` gives `bar bar` |
| Interpreter.FindDeleteExample | script.js:634-638 | `FIND_DELETE` of `foo` on `foo foo` gives a single space |

## Left out

- The user interface, file pickers, the CodeMirror editors, file reading and writing, the folder walk and ZIP bundling are not part of this model. They are I/O, and the engine's functions receive their results as plain values.
- `abToUtf8Safe` and `utf8ToAB` are not part of this model. They are text decoding and encoding through `TextDecoder` and `TextEncoder`, and the model works on already-decoded strings.
- `+cmd.a`, JavaScript's number conversion, is a parameter of the model (`Interpreter.NumberConversion`). It maps a string to an integer, or to nothing for `NaN` and `Infinity`.
- Finite numbers that are not integers are not modelled. For example, `lineIndex(1.5, len)` returns 0.5 when `len` is at least 2, and null otherwise. `lines[0.5] = x` sets a property rather than a line.
- Interpreter.InsertionPosAfterLine and Interpreter.LineIndex: these take integer line numbers only, for the same reason.
- JsStrings.Chars: a character stands for one UTF-16 code unit. Characters outside the Basic Multilingual Plane, which JavaScript splits into two code units, are not modelled.
- JsStrings.ToLower and JsStrings.ToUpper: only these mappings are modelled:
  - ASCII letters
  - the non-ASCII characters whose mapping is ASCII (`ı`, `ſ`, `ß` and the Latin ligatures upper-case to ASCII; the Kelvin sign lower-cases to `k`)

  Other characters are left unchanged. The mapping decides operator names and extensions, which are ASCII, so it does not change which lines parse or which files qualify. It does change one error text: an operator field such as `é` is reported by the model as `Unknown command: é`, where the code reports `Unknown command: É`.
- A thrown `Error` is modelled as a `Result` error value. `Commands.ErrorMessage` gives the message text.
- `bufferToHexDump` and `hexDumpToBuffer` take and return `ArrayBuffer`s. The model works on byte sequences, or on an array for the output of the reader.
