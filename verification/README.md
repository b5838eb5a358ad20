# Sysdiagnose log reduction, modelled in Dafny

This project models the local log-reduction pipeline of the Apple Pencil
locator app (`services/logParser.ts`). The app receives a gzip-compressed
sysdiagnose archive and must cut it down to a short excerpt of relevant
text before anything is sent to the analysis service. The pipeline works in
these steps:

1. **Window sampling.** After decompression, it keeps only the first and the
   last 20 MiB of the stream. It decodes both windows and joins them around
   the marker `"\n...[SKIPPED DATA]...\n"`.
2. **Relevance filter (`filterContent`).** It splits the text into lines and
   keeps a line when any of four OR-combined rules matches:
   - an accessory keyword, in any case;
   - one of the model codes `A2538`, `A2051` or `A1603`;
   - a `statedump` or `lastseen` marker together with a corroborating signal;
   - a connectivity rule that is active only when the source name mentions
     "bluetooth".

   Kept lines are trimmed and kept in their order. Only the last 800 are
   kept, and they are joined with newlines.
3. **Chunk choice.** If fewer than 50 characters survive the filter, the
   pipeline hands on one fixed advisory chunk with score 1. Otherwise it
   hands on one chunk holding the filtered text, with score 10.
4. **File-name test (`isTextLog`).** A name is a text log when it ends in
   `.log` or `.txt`, or mentions "bluetooth" or "system", ignoring case.

## Files

- `LogTypes.dfy` holds `ParsedLogChunk` (from `types.ts`) and the
  `Option`/`Result` wrappers.
- `JsString.dfy` holds the JavaScript string built-ins the source relies on,
  each with its own contract:
  - `toLowerCase`, `includes`, `endsWith`;
  - `trim`, with ECMAScript's exact whitespace set;
  - `split('\n')` and `join('\n')`, with both round trips proved.
- `LogParser.dfy` holds the pipeline:
  - the per-line rules, `isTextLog` and the window arithmetic, as functions;
  - `filterContent` and `parseSysdiagnose` as methods. Each has a loop or
    accumulator like the source's, and is proved equal to a pure
    specification function whose properties are proved as lemmas.
- `LogParserScenarios.dfy` holds the behaviours on concrete lines, file
  names and counts.

Decompression (`gunzip`), UTF-8 decoding (`decode`) and the file reader's
outcome are parameters of `ParseSysdiagnose`. They are not modelled
functions.

One behaviour follows from the code and is proved here. The sysdiagnose
pipeline always labels its text `"combined_logs.txt"`, which does not
mention "bluetooth". So the connectivity rule never applies inside
`parseSysdiagnose` (`LogParser.ScanFileNameNotBluetooth`). A line such as
`Device 04:12 RSSI -62` is kept when it is filtered under a bluetooth-named
source, but the pipeline drops it (`LogParserScenarios.DeviceLineDroppedFromScan`).

The windows follow the code as written. The tail window is
`[max(0, len - 20 MiB), len)`, so it is empty only when the whole stream is
empty. The fallback threshold is 50 characters of filtered text, not a
number of lines.

## Model

| member | source | states |
|---|---|---|
| JsString.LowerChar | services/logParser.ts:17 | ASCII capitals become the matching lower-case letter; every other character is unchanged; the result is never an ASCII capital |
| JsString.Lower | services/logParser.ts:37 | lower-casing keeps the length of the string |
| JsString.LowerIdempotent | services/logParser.ts:37 | lower-casing a lower-cased string changes nothing |
| JsString.LowerAppend | services/logParser.ts:17 | lower-casing distributes over concatenation |
| JsString.LowerOccurs | services/logParser.ts:37-44 | a word found at position i is found, lower-cased, at position i of the lower-cased text |
| JsString.LowerLacks | services/logParser.ts:37-44 | a letter missing from a string in both cases is missing from its lower-cased form |
| JsString.EndsWith | services/logParser.ts:19-20 | `endsWith`: the text's last characters are the pattern; EndsWithIff states what that means |
| JsString.EndsWithIff | services/logParser.ts:19-20 | a text ends with p exactly when it is some stem followed by p (both directions) |
| JsString.Contains | services/logParser.ts:21-22 | `includes`: the text starts with the pattern or its remainder includes it; ContainsAt, ContainsIff, NotContainsMissingChar and ContainsInfix state what that means |
| JsString.ContainsAt | services/logParser.ts:41-48 | `includes` holds whenever the pattern occurs at some position |
| JsString.ContainsIff | services/logParser.ts:41-48 | `includes` holds exactly when the pattern occurs at some position (both directions) |
| JsString.NotContainsMissingChar | services/logParser.ts:41-48 | a pattern holding a character the text lacks is not included |
| JsString.ContainsInfix | services/logParser.ts:40-44 | a text that includes p includes every infix of p |
| JsString.IsWhitespace | services/logParser.ts:67 | the characters `trim` removes: ECMAScript's WhiteSpace and LineTerminator code points; Trim's contract states what trimming does with them |
| JsString.AllWhitespaceIff | services/logParser.ts:67 | a text is all whitespace exactly when every one of its positions holds whitespace (both directions) |
| JsString.LeadingSpace | services/logParser.ts:67 | the count is within the text, everything before it is whitespace, and the character at it is not |
| JsString.TrailingSpace | services/logParser.ts:67 | the count is within the text, everything after the last non-counted character is whitespace, and that character is not |
| JsString.Trim | services/logParser.ts:67 | result is the block of the input that starts after its leading whitespace; everything dropped before and after it is whitespace; both its ends are non-whitespace; a string with non-whitespace ends is unchanged |
| JsString.TrimNoChar | services/logParser.ts:67 | trimming introduces no character |
| JsString.Split | services/logParser.ts:30 | at least one piece, and no piece holds the separator |
| JsString.Join | services/logParser.ts:73-75 | `join`: the parts with the separator between each two; JoinSplit and SplitJoin state that it undoes and is undone by Split |
| JsString.SplitNoSep | services/logParser.ts:30 | a text without the separator is a single piece |
| JsString.SplitAtSep | services/logParser.ts:30 | the pieces of a + sep + b are the pieces of a followed by those of b |
| JsString.JoinSplit | services/logParser.ts:30 | joining the pieces of a split gives the text back |
| JsString.SplitJoin | services/logParser.ts:73-75 | splitting a join of separator-free lines gives the lines back |
| JsString.SplitAroundPiece | services/logParser.ts:112 | a separator-free piece framed by separators becomes one piece of its own |
| LogParser.IsTextLog | services/logParser.ts:16-24 | the name, lower-cased, ends in .log or .txt or mentions bluetooth or system; IsTextLogIgnoresCase, IsTextLogByExtension, IsTextLogByMention and ArchiveIsNotTextLog state its behaviour |
| LogParser.IsTextLogIgnoresCase | services/logParser.ts:16-24 | a name and its lower-cased form are judged alike |
| LogParser.IsTextLogByExtension | services/logParser.ts:16-24 | every name ending in .log, .LOG, .txt or .TXT is a text log |
| LogParser.IsTextLogByMention | services/logParser.ts:16-24 | every name mentioning bluetooth or system anywhere, in any capitalisation, is a text log, and a bluetooth mention makes it a bluetooth log |
| LogParser.HasPencilKeyword | services/logParser.ts:40-44 | rule 1: the lower-cased line includes an accessory keyword; MentionKept and RelevantIff state its behaviour |
| LogParser.HasModelIdentifier | services/logParser.ts:47-48 | rule 2: the line includes one of three model codes, case kept; ModelCodeKept and RelevantIff state its behaviour |
| LogParser.HasStateDump | services/logParser.ts:51-53 | rule 3: a statedump or lastseen marker together with a keyword, a model code or a gapname field; StateDumpWithNameFieldKept and RelevantIff state its behaviour |
| LogParser.HasConnectivitySignal | services/logParser.ts:61-65 | rule 4's line test: Device with RSSI, Connect or disconnect, case kept; OnlyConnectivity and the device-line scenarios state its behaviour |
| LogParser.IsBluetoothLog | services/logParser.ts:34 | the lower-cased source name includes bluetooth; IsTextLogByMention, ScanFileNameNotBluetooth and BluetoothNameIsBluetoothLog state its behaviour |
| LogParser.IsRelevant | services/logParser.ts:57-66 | the OR of the four rules, rule 4 only for a bluetooth source; RelevantIff, OnlyConnectivity and NotRelevantWithoutLetters state its behaviour |
| LogParser.RelevantIff | services/logParser.ts:37-65 | a line is kept exactly when it mentions "pencil" or "stylus" in any case, carries a model code, is a statedump/lastseen line with a "gapname" field, or is a connectivity line of a bluetooth source |
| LogParser.MentionFound | services/logParser.ts:37-44 | a word anywhere in a line is found, lower-cased, in the lower-cased line |
| LogParser.MentionKept | services/logParser.ts:40-44 | every line naming "Pencil", "pencil" or "Stylus" is kept from any source |
| LogParser.ModelCodeKept | services/logParser.ts:47-48 | every line carrying A2538, A2051 or A1603 is kept from any source |
| LogParser.StateDumpWithNameFieldKept | services/logParser.ts:51-53 | a statedump line with a GAPName field satisfies rule 3 and is kept, even with no keyword or model code |
| LogParser.OnlyConnectivity | services/logParser.ts:57-65 | a line lacking l, u and A can only be kept by the connectivity rule, and is kept exactly when the source is a bluetooth log and the line is a connectivity line |
| LogParser.NotRelevantWithoutLetters | services/logParser.ts:37-65 | a line lacking l, u, lower-case c, 0 and 3 is never kept |
| LogParser.Matches | services/logParser.ts:36-69 | there are never more matches than lines |
| LogParser.KeptIndices | services/logParser.ts:36-69 | the kept positions are in range and strictly increasing, and a position is listed exactly when its line is accepted |
| LogParser.MatchesAt | services/logParser.ts:36-69 | the k-th match is the trimmed line at the k-th kept position, so kept lines keep their order |
| LogParser.MatchesAppend | services/logParser.ts:36-69 | no state carries across lines: the matches of a ++ b are the matches of a followed by those of b |
| LogParser.MatchesStep | services/logParser.ts:36-68 | one more line adds its trimmed form exactly when it is accepted |
| LogParser.MatchesNoSep | services/logParser.ts:67 | matches of newline-free lines are newline-free |
| LogParser.TailCap | services/logParser.ts:72-75 | the result is the suffix of length min(n, cap) |
| LogParser.FilteredText | services/logParser.ts:29-76 | the join of the last 800 trimmed relevant lines; FilterContent is proved to return it, and FilteredTextLines, FilteredTextAtMostMaxLines and SingleLineFiltered state its behaviour |
| LogParser.FilterContent | services/logParser.ts:29-76 | the loop's output is the last 800 trimmed relevant lines, in order, joined by newlines |
| LogParser.CappedRoundTrip | services/logParser.ts:72-75 | joining the last cap newline-free lines and splitting again gives exactly those lines |
| LogParser.CappedMatchesRoundTrip | services/logParser.ts:72-75 | joining the capped matches and splitting again gives exactly those matches |
| LogParser.FilteredTextLines | services/logParser.ts:71-75 | read back line by line, the filter output is exactly the last 800 matches in order, or empty when nothing matched |
| LogParser.FilteredTextAtMostMaxLines | services/logParser.ts:71-75 | the filter output never holds more than 800 lines |
| LogParser.SingleLineFiltered | services/logParser.ts:29-76 | a one-line text filters to that line trimmed when it is kept, and to the empty string otherwise |
| LogParser.Head | services/logParser.ts:109 | the head window is the prefix of length min(len, 20 MiB) |
| LogParser.Tail | services/logParser.ts:110 | the tail window is the suffix of length min(len, 20 MiB) |
| LogParser.WindowsBounded | services/logParser.ts:108-110 | the two windows together never exceed 2 x 20 MiB |
| LogParser.SmallInputConvergence | services/logParser.ts:108-110 | a stream of at most 20 MiB is both windows, whole |
| LogParser.LargeInputCoverage | services/logParser.ts:108-110 | for streams of at least 40 MiB, the stream is head ++ skipped middle ++ tail |
| LogParser.OverlapCoverage | services/logParser.ts:108-110 | for streams of at most 40 MiB nothing is skipped: the head plus the end of the tail is the whole stream |
| LogParser.CombinedText | services/logParser.ts:112 | the decoded head, the gap marker, then the decoded tail; CombinedHasMarker, CombinedLines and CombinedMatches state its behaviour |
| LogParser.CombinedHasMarker | services/logParser.ts:112 | the combined text always contains the gap marker, even for an empty stream |
| LogParser.CombinedLines | services/logParser.ts:112 | the combined text's lines are the head's lines, the marker's own line, then the tail's lines |
| LogParser.GapLineNotRelevant | services/logParser.ts:112-114 | the marker's line is never kept |
| LogParser.MatchesAroundRejected | services/logParser.ts:36-69 | a rejected line between two blocks contributes no match |
| LogParser.CombinedMatches | services/logParser.ts:112-114 | the matches of the combined text are the head window's matches followed by the tail window's |
| LogParser.ScanFileNameNotBluetooth | services/logParser.ts:114 | the label "combined_logs.txt" is not a bluetooth log, so the pipeline's filter applies rules 1 to 3 only |
| LogParser.ChunkFor | services/logParser.ts:116-128 | the content is never empty; the timestamp is absent; the score is 1 exactly when fewer than 50 characters were filtered and 10 otherwise; the name and content of each case |
| LogParser.ParseError.Message | services/logParser.ts:98-137 | the message of each rejection: the invalid-format text of the gunzip failure and the read-failure text; ParseSysdiagnose states which failure gives which |
| LogParser.ParseSysdiagnose | services/logParser.ts:82-139 | a read failure rejects with the read-failure error; a gunzip error rejects with the invalid-format error and no chunks; otherwise exactly one chunk, chosen from the filtered head/gap/tail text |
| LogParserScenarios.DeviceLineNeedsBluetoothSource | services/logParser.ts:57-65 | `Device 04:12 RSSI -62` is kept from a bluetooth source and not from any other |
| LogParserScenarios.BluetoothNameIsBluetoothLog | services/logParser.ts:34 | "Bluetooth.log" switches the connectivity rule on |
| LogParserScenarios.DeviceLineKeptFromBluetoothLog | services/logParser.ts:29-76 | filtering the device line under "Bluetooth.log" returns that line |
| LogParserScenarios.DeviceLineDroppedFromScan | services/logParser.ts:114 | filtering the device line under the pipeline's label returns the empty string |
| LogParserScenarios.StateDumpLineKept | services/logParser.ts:51-53 | a time-stamped `statedump: GAPName: "Apple Pencil Pro", LastSeen: …` record satisfies the state-dump rule and is kept from any source |
| LogParserScenarios.AccessoryLineNeedsBluetoothSource | services/logParser.ts:57-65 | "Connected to Magic Keyboard" is dropped from a source that is not a bluetooth log and kept from one that is |
| LogParserScenarios.TailCapThousand | services/logParser.ts:72-73 | of 1000 matches numbered 1..1000, the cap keeps 201..1000 in order |
| LogParserScenarios.ArchiveIsNotTextLog | services/logParser.ts:16-24 | "archive.tar.gz" is not taken for a text log |

## Left out

- Decompression with fflate's `gunzip` is the `gunzip` parameter, returning `Ok(bytes)` or `Err`. It is a foreign library.
- The `try`/`catch` around the gunzip call, which would turn a synchronous throw into a rejection, is not modelled. A throw is not a value the model can see.
- `FileReader`, the Promise and callback plumbing, and `console.error` are asynchronous I/O and logging. The reader's outcome is the `ReadResult` parameter.
- `TextDecoder`'s lossy UTF-8 decoding is the total `decode` parameter. The UTF-8 state machine is not modelled.
- JsString.Lower: lower-cases ASCII letters only. JavaScript's `toLowerCase` also maps non-ASCII capitals. The keywords the filter looks for are ASCII, but a non-ASCII capital that lower-cases to an ASCII letter (such as U+212A KELVIN SIGN to `k`) is not modelled.
- JsString.Lower: its contract gives only the length. The per-character mapping is its definition, and LowerOccurs and LowerLacks state what the filter needs from it.
- LogParser.ChunkFor: counts the filtered text's length in Unicode scalar values. JavaScript's `length` counts UTF-16 code units, so a text with characters outside the Basic Multilingual Plane can fall on a different side of the 50 threshold.
- The `KEYWORDS` array (services/logParser.ts:5-11) is never read by the source. It is not modelled, and its extra model codes (A2539, A2633) play no part.
- `isTextLog` is never called in the source. It is modelled on its own.
- `ParsedLogChunk.timestamp` is never set by the pipeline. It is always `None`.
- `services/geminiService.ts`, the React components, `App.tsx`, `AppState` and `AnalysisResult` are not part of this model. They are the network call to the analysis service and the user interface.
