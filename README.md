# Camara credential reading, modelled in Dafny

Camara reads the Mexican INE/IFE voter credential in three ways:

- from the PDF417 barcode on its back;
- from OCR text of its printed face, in the browser;
- from OCR text on a small vision server.

This project models the logic that turns the recognised text into a name or a record. It also models two small utilities: the colour inversion of a pixel buffer, done before a second barcode attempt, and the append-only debug log. The modules are:

- `JsString`: the JavaScript string primitives the code relies on. These are `trim` with ECMAScript's whitespace set, `split` on one character, `join`, `indexOf`, `replace(/\s+/g, ' ')`, `toUpperCase` restricted to ASCII and Latin-1, and `Array.prototype.filter`.
- `IneParser`: `parseINECredential`, which reads fifteen `|`-separated pieces at fixed positions, and `formatINEData`, the fixed text report.
- `OcrReader`: `parseINEFromOCR`, a cascade of four heuristics over the OCR text. The two keyword regular expressions are modelled with their backtracking.
- `VisionServer`: the name between the first `SEXO` and the first `DOMICIL`, cleaned by a fixed chain of deletions, or a sentinel message.
- `ImageInvert`: the stride-4 inversion loop over an RGBA buffer.
- `AupDebugger`: the `AUPDebugger` class and its history.

The model follows the code on these points:

- the CURP is piece 3 of the payload, with no search for an 18-character token and no length check;
- `sexo` is shown as it is, with no H/M expansion;
- `vigencia` is piece 13 and `emision` piece 14;
- a payload needs fifteen pieces, that is fourteen `|`.

The keyword pattern's alternative `APELLIDO\s*PATERNO` never decides a match. Wherever it could match, `APELLIDOS?` followed by `[:\s]*` matches already. So for `APELLIDO PATERNO GARCIA` the capture starts at `PATERNO`. Both facts are proved.

On the server, `\b` only knows ASCII word characters. So deleting the word `M` also deletes the initial of `MÉNDEZ`, which becomes `ÉNDEZ`. This is proved as well.

## Model

| member | source | states |
|---|---|---|
| JsString.TrimStart | src/utils/ineParser.ts:30 | the result is no longer than the input and does not start with whitespace |
| JsString.TrimEnd | src/utils/ineParser.ts:30 | the result is a prefix of the input and does not end with whitespace |
| JsString.LeadingCut | src/utils/ineParser.ts:30 | `trimStart` keeps a suffix and everything it cuts is whitespace |
| JsString.TrailingCut | src/utils/ineParser.ts:30 | everything `trimEnd` cuts is whitespace |
| JsString.TrimStartIs | src/utils/ineParser.ts:30 | a whitespace run up to a non-whitespace character or the end is exactly what `trimStart` removes |
| JsString.TrimEndIs | src/utils/ineParser.ts:30 | a whitespace run from a non-whitespace character or the start to the end is exactly what `trimEnd` removes |
| JsString.Trim | src/utils/ineParser.ts:30 | the result has no whitespace at either end |
| JsString.TrimTrimmed | src/components/INEOCRReader.tsx:131 | trimming a trimmed string changes nothing |
| JsString.TrimEndAppend | src/utils/ineParser.ts:77 | trimming the end of `x + y` only touches `y` when `y` has a non-whitespace character or `x` ends with one |
| JsString.TrimKeeps | server/index.js:114 | trimming adds no character, no pair of adjacent whitespace characters and no whitespace other than a space |
| JsString.SliceKeeps | server/index.js:114 | a slice of a string keeps its characters and both whitespace properties |
| JsString.Count | src/utils/ineParser.ts:22-24 | the number of separators, never more than the text's length |
| JsString.CountZero | src/utils/ineParser.ts:22-24 | no separator is counted exactly when the text holds none |
| JsString.Join | src/core/aup_debugger.ts:24 | `join`, with no contract of its own; `SplitJoin`, `JoinAt`, `JoinAppend` and `TokensOfJoin` state what it builds |
| JsString.JoinCons | src/core/aup_debugger.ts:24 | joining `[x] + parts` puts one separator after `x` |
| JsString.JoinAppend | src/core/aup_debugger.ts:24 | joining two non-empty lists puts one separator between their joins |
| JsString.JoinAt | src/utils/ineParser.ts:51-77 | element `i` of a join stands between the join of the earlier elements plus a separator and a separator plus the join of the later ones |
| JsString.OccursInJoin | src/utils/ineParser.ts:51-77 | each element occurs whole at its offset in the join, and in anything that extends it |
| JsString.JoinOffsetNext | src/utils/ineParser.ts:75-76 | consecutive elements of a join start one element and one separator apart |
| JsString.Split | src/utils/ineParser.ts:22 | `split` yields at least one piece |
| JsString.SplitPieces | src/utils/ineParser.ts:22 | there is one piece more than separators, no piece holds the separator, and joining the pieces with it gives the input back |
| JsString.SplitNoSeparator | src/utils/ineParser.ts:22 | a text without the separator splits into itself |
| JsString.SplitAfterPiece | src/utils/ineParser.ts:22 | a separator-free piece, the separator, then the rest split into the piece followed by the rest's pieces |
| JsString.SplitJoin | src/utils/ineParser.ts:22 | splitting undoes joining when no piece holds the separator |
| JsString.IndexFrom | server/index.js:92-93 | the first occurrence at or after `from`, or -1 exactly when there is none |
| JsString.IndexOf | server/index.js:92-93 | `indexOf` is -1 exactly when the pattern occurs nowhere; otherwise it is the first place where it occurs |
| JsString.CollapseSpaces | server/index.js:113 | the result has no two adjacent whitespace characters, only plain spaces as whitespace, no new character other than a space, is empty exactly when the input is, and starts and ends with whitespace exactly when the input does |
| JsString.CollapseSpacesTokens | server/index.js:113 | collapsing the whitespace runs keeps the words, in order; with the contract above this fixes the result completely |
| JsString.NonSpacePrefix | src/components/INEOCRReader.tsx:151 | the longest whitespace-free prefix: a prefix without whitespace, followed by whitespace or the end |
| JsString.Tokens | src/components/INEOCRReader.tsx:151 | every word is non-empty and holds no whitespace |
| JsString.NonSpacePrefixOfWord | src/components/INEOCRReader.tsx:151 | a word followed by whitespace or the end is the whitespace-free prefix |
| JsString.TokensAfterSpace | src/components/INEOCRReader.tsx:151 | a leading whitespace character adds no word |
| JsString.TokensTrimStart | src/components/INEOCRReader.tsx:151 | leading whitespace adds no word |
| JsString.TokensOfNonSpaceThen | src/components/INEOCRReader.tsx:151 | a non-whitespace character in front is a word of its own before whitespace or the end, else it joins the first word |
| JsString.TokensUpToSpaces | server/index.js:104 | swapping whitespace characters for other whitespace characters keeps the words |
| JsString.TokensOfWordThen | src/components/INEOCRReader.tsx:151 | a word followed by whitespace or the end is the first word |
| JsString.TokensOfJoin | src/components/INEOCRReader.tsx:151 | the words of non-empty whitespace-free words joined by single spaces are those words |
| JsString.TokensOfJoinStep | src/components/INEOCRReader.tsx:151 | one more word in front of a join that reads back adds that word in front |
| JsString.TokensOfWordSpaceThen | src/components/INEOCRReader.tsx:151 | a word, a space, then a text: that word and the text's words |
| JsString.JoinHeadCons | src/components/INEOCRReader.tsx:151 | a character put in front of the first part of a join is put in front of the join |
| JsString.TrimIsJoinOfTokens | server/index.js:113-114 | when every whitespace is a single plain space, `trim` gives the words joined by one space |
| JsString.FirstWords | src/components/INEOCRReader.tsx:151 | `trim().split(/\s+/).slice(0, n).join(' ')` has at most `n` words, they are the first `n` words of the input, and the result is those words joined by single spaces |
| JsString.UpperChar | src/components/INEOCRReader.tsx:114 | upper-casing one character keeps whitespace and ASCII word characters exactly as they are classed, and maps `a`-`z` to `A`-`Z` |
| JsString.ToUpper | server/index.js:89 | `toUpperCase` gives one character for each character, so positions found in the upper-cased text are valid positions of the original |
| JsString.Filter | src/components/INEOCRReader.tsx:120-122 | `filter` keeps exactly the elements that satisfy the predicate, and no more of them than there were |
| JsString.FilterAppend | src/components/INEOCRReader.tsx:130-134 | filtering a concatenation filters each part and keeps their order |
| JsString.FilterFirst | src/components/INEOCRReader.tsx:130-134 | the first element kept is the first element that satisfies the predicate, and the rest are kept from after it |
| JsString.FilterKeepsAll | server/index.js:107-112 | a filter every element passes changes nothing |
| IneParser.FieldsOf | src/utils/ineParser.ts:29-44 | the record read from the first fifteen pieces has every field but `raw` trimmed, and `raw` is the given text |
| IneParser.ParseINECredential | src/utils/ineParser.ts:19-49 | no record exactly when the payload has fewer than fourteen `\|` (fewer than fifteen pieces); a record keeps the payload in `raw` and all its other fields are trimmed |
| IneParser.ParseJoined | src/utils/ineParser.ts:29-44 | a payload joined from fifteen or more pipe-free pieces yields the record of trimmed pieces 0-6 and 10-14 in schema order, `domicilio` from pieces 7-9, and `raw` the payload |
| IneParser.SamePrefixSameFields | src/utils/ineParser.ts:19-49 | two payloads agreeing on their first fifteen pieces give records that differ at most in `raw` |
| IneParser.ExtraPiecesIgnored | src/utils/ineParser.ts:30-42 | pieces after the fifteenth change nothing but `raw` |
| IneParser.CurpIsPieceThree | src/utils/ineParser.ts:33 | the CURP is piece 3 as it is, of any length and any format |
| IneParser.ShortCurpAccepted | src/utils/ineParser.ts:33 | a line of fifteen pieces whose CURP piece has 17 characters is accepted, and that CURP is kept |
| IneParser.FewPiecesRejected | src/utils/ineParser.ts:24-27 | fewer than fifteen pieces are rejected, whatever they hold |
| IneParser.DomicilioOfTrimmedPieces | src/utils/ineParser.ts:37 | `domicilio` is pieces 7, 8 and 9 joined by single spaces, trimmed only as a whole |
| IneParser.ReportLines | src/utils/ineParser.ts:52-77 | the report template has 24 lines; `FormatShape`, `FormatContainsLine` and `FormatShowsIdentity` state where each stands in the report |
| IneParser.FormatINEData | src/utils/ineParser.ts:51-78 | the report has no whitespace at either end |
| IneParser.FramedTrim | src/utils/ineParser.ts:52-77 | trimming lines framed by line breaks cuts only the last line's trailing whitespace, when the first and last lines start with a non-whitespace character |
| IneParser.LastLineTrim | src/utils/ineParser.ts:76-77 | the final line break goes with the last line's trailing whitespace |
| IneParser.FormatShape | src/utils/ineParser.ts:51-78 | the report is its lines joined by line breaks, with only the last line's trailing whitespace cut |
| IneParser.FramedLineAt | src/utils/ineParser.ts:51-78 | in such a framed, trimmed text every line but the last stands whole at its offset |
| IneParser.FormatContainsLine | src/utils/ineParser.ts:53-75 | every report line but the last occurs whole at its place in the report |
| IneParser.FormatShowsIdentity | src/utils/ineParser.ts:56-64 | the report holds the name line (the three name fields joined by single spaces) and the `CURP: `, `Clave Elector: ` and `Sexo: ` lines, `sexo` shown unchanged |
| IneParser.FormatEmisionBeforeVigencia | src/utils/ineParser.ts:74-77 | the `Emisión` line ends before the `Vigencia:` bullet starts, and both occur in the report |
| IneParser.VigenciaLabelAt | src/utils/ineParser.ts:76-77 | the last line starts with the `Vigencia:` bullet, whatever trimming cuts from its end |
| IneParser.TrimEndKeepsHead | src/utils/ineParser.ts:76-77 | trimming the end keeps a leading tag that ends in a non-whitespace character |
| OcrReader.CleanText | src/components/INEOCRReader.tsx:111-115 | the cleaned text has no whitespace at either end, no two whitespace characters in a row, only plain spaces as whitespace, and no ASCII lower-case letter |
| OcrReader.UpperKeeps | src/components/INEOCRReader.tsx:113-114 | upper-casing keeps single plain spaces and leaves no ASCII lower-case letter |
| OcrReader.OcrLines | src/components/INEOCRReader.tsx:120-122 | every line is non-empty and trimmed |
| OcrReader.IsNameLine | src/components/INEOCRReader.tsx:133 | the line pattern, with no contract of its own; `NameLinesQualify` states what it admits |
| OcrReader.NameLines | src/components/INEOCRReader.tsx:130-134 | the name lines are no more than the lines, and each matches the line pattern once trimmed |
| OcrReader.NameLinesQualify | src/components/INEOCRReader.tsx:129-134 | a line is a name line exactly when it has 3 to 40 characters, all capitals, accented capitals or whitespace |
| OcrReader.NameLinesUntouchedByTrim | src/components/INEOCRReader.tsx:139-140 | the second `trim` of a name line changes nothing |
| OcrReader.NameLineLong | src/components/INEOCRReader.tsx:133 | a trimmed name line has at least three characters |
| OcrReader.UpperWords | src/components/INEOCRReader.tsx:165 | every word kept has more than two characters, all capitals or accented capitals |
| OcrReader.LongLines | src/components/INEOCRReader.tsx:177-179 | the fallback lines, with no contract of its own; `LongLinesShape` states their bounds |
| OcrReader.LongLinesShape | src/components/INEOCRReader.tsx:177-179 | the fallback lines are no more than the lines, and each has more than two characters after upper-casing and trimming |
| OcrReader.Run | src/components/INEOCRReader.tsx:149 | a greedy character-class run: all its characters match and the next one does not |
| OcrReader.RunAtLeast | src/components/INEOCRReader.tsx:149 | `m` matching characters make a run at least `m` long |
| OcrReader.CaptureFrom | src/components/INEOCRReader.tsx:149 | what the group takes at a place: the run of name characters there, cut at 30, character for character |
| OcrReader.CaptureFromShaped | src/components/INEOCRReader.tsx:149 | where the group fits, what it takes has `lo` to 30 name characters |
| OcrReader.CaptureBack | src/components/INEOCRReader.tsx:149 | the group tried from `q` down to `j`: none exactly when it fits at no place in `j..q`; otherwise the last place in `j..q` where it fits |
| OcrReader.GapWithinRun | src/components/INEOCRReader.tsx:149 | a stretch of colons and whitespace from `j` ends inside the greedy `[:\s]*` run from `j` |
| OcrReader.GapUpToRun | src/components/INEOCRReader.tsx:149 | the places `[:\s]*` from `j` can stop are exactly `j` up to the end of its greedy run |
| OcrReader.CaptureAfter | src/components/INEOCRReader.tsx:149 | `[:\s]*` then the group: none exactly when the group fits at no place `[:\s]*` can reach; otherwise the last such place where it fits, as backtracking finds it |
| OcrReader.OptionalSThenCapture | src/components/INEOCRReader.tsx:149 | `S?[:\s]*` then the group: with an `S` here and a fit after it, the last fit after the `S`; otherwise the last fit from here; none exactly when neither exists |
| OcrReader.PaternoThenCapture | src/components/INEOCRReader.tsx:149 | `\s*PATERNO[:\s]*` then the group: a result exactly when `PATERNO` follows the whitespace run and the group fits after it, and then the last fit after `PATERNO` |
| OcrReader.MatchAt | src/components/INEOCRReader.tsx:149-156 | where the keyword occurs, the pattern matches exactly when `S?[:\s]*` then the group does after the keyword, and the capture is what the group takes there, with the pattern's 3 or 2 to 30 name characters; the `PATERNO` alternative never changes the result |
| OcrReader.Search | src/components/INEOCRReader.tsx:149-160 | `match` without `g`: nothing exactly when no position matches; else the leftmost matching position and its capture |
| OcrReader.PaternoAlternativeSubsumed | src/components/INEOCRReader.tsx:149 | wherever `APELLIDO\s*PATERNO` would match, `APELLIDOS?[:\s]*` matches already |
| OcrReader.PaternoLetters | src/components/INEOCRReader.tsx:149 | `PATERNO` starts with `P` and three capitals |
| OcrReader.PaternoIsCaptured | src/components/INEOCRReader.tsx:149 | after `APELLIDO PATERNO` the capture starts with `PATERNO` |
| OcrReader.KeywordSurname | src/components/INEOCRReader.tsx:149-153 | `""` when the surname pattern matches nowhere in the upper-cased text; otherwise the first two words of the leftmost capture, joined by single spaces |
| OcrReader.KeywordGiven | src/components/INEOCRReader.tsx:156-160 | `""` when the given-name pattern matches nowhere in the upper-cased text; otherwise the first three words of the leftmost capture, joined by single spaces |
| OcrReader.WordsGiven | src/components/INEOCRReader.tsx:170 | the given name is at least as long as the second word |
| OcrReader.UpperWordsGiven | src/components/INEOCRReader.tsx:165-170 | the given name is `slice(1, 3).join(' ')`, and its words are exactly those one or two words |
| OcrReader.UpperWordsLong | src/components/INEOCRReader.tsx:165-170 | the surname and the given name of the word heuristic have more than two characters |
| OcrReader.OrNotDetected | src/components/INEOCRReader.tsx:194-195 | the shown field is never empty, and a filled field is shown as it is |
| OcrReader.ParseINEFromOCR | src/components/INEOCRReader.tsx:104-206 | the first heuristic that yields something decides, in order: two name lines, then both keyword fields, then two upper-case words, then one keyword field, then two longer lines, else no result; a result keeps the text in `rawText`, has both fields non-empty, and shows `NO DETECTADO` for a field left empty |
| VisionServer.Substring | server/index.js:100 | `substring` of an ordered in-range pair is that slice |
| VisionServer.WordPrefix | server/index.js:105-111 | the longest prefix of word characters |
| VisionServer.RemoveWord | server/index.js:105-111 | `replace(/\bw\b/gi, '')` leaves no standalone `w` in any case, and adds no character |
| VisionServer.RemoveWordKeepsSeparators | server/index.js:105-111 | every non-word character stays, and a leading one stays in front |
| VisionServer.RemoveWordIdle | server/index.js:105-111 | a text with no standalone `w` comes out unchanged |
| VisionServer.AccentedNameLosesInitial | server/index.js:106 | `\b` sees only ASCII word characters, so deleting `M` turns `MÉNDEZ` into `ÉNDEZ` |
| VisionServer.FreeOfSameWordChars | server/index.js:104-106 | replacing non-word characters by other non-word characters, as the line-break replacement does, keeps a text free of `w` |
| VisionServer.WordPrefixOfRun | server/index.js:105-111 | a run of word characters followed by a non-word character or the end is the word prefix |
| VisionServer.NewlinesToSpaces | server/index.js:104 | same length, no line break, and each line break becomes a space |
| VisionServer.StripFragments | server/index.js:105-112 | the deletions add no character and leave none of `<>:;` |
| VisionServer.SecondAngleRemovalIsIdle | server/index.js:107-112 | the second removal of `>` changes nothing after the first |
| VisionServer.StripFragmentsIdle | server/index.js:105-112 | a text with none of the six words and none of `<>:;` comes out of the deletions unchanged |
| VisionServer.CleanName | server/index.js:103-114 | the cleaned name has no line break, none of `<>:;`, no whitespace at either end, no two whitespace characters in a row, and only plain spaces as whitespace |
| VisionServer.CleanNameKeepsWords | server/index.js:103-114 | on a slice with nothing for the deletions to take, the cleaned name is exactly the slice's words, in order, joined by single spaces |
| VisionServer.MarkersDoNotOverlap | server/index.js:95-97 | when `DOMICIL` comes after `SEXO`, it starts at or after the end of `SEXO` |
| VisionServer.ExtractName | server/index.js:89-123 | the answer is never empty; it is the sentinel when either marker is missing or out of order; otherwise it is the cleaned slice of the original text between them, or the sentinel if that is empty |
| ImageInvert.Inverted | src/components/QRPdf417Reader.tsx:204-210 | the inverted buffer has the source's length |
| ImageInvert.InvertedTwice | src/components/QRPdf417Reader.tsx:206-209 | inverting twice gives the buffer back |
| ImageInvert.PixelChannels | src/components/QRPdf417Reader.tsx:206-209 | for each pixel, red, green and blue become `255 - v` and alpha is copied |
| ImageInvert.InvertRgb | src/components/QRPdf417Reader.tsx:204-210 | a fresh buffer holding the inversion of the source, which is only read |
| AupDebugger.LogEntry | src/core/aup_debugger.ts:11 | an entry starts with the bracketed context and ends with the message, so both can be read back |
| AupDebugger.ErrorEntry | src/core/aup_debugger.ts:18 | an error entry starts with the bracketed context and ends with the error text |
| AupDebugger.LogAndErrorDiffer | src/core/aup_debugger.ts:11-18 | with the same context and timestamp, a log entry never equals an error entry |
| AupDebugger.AUPDebugger.constructor | src/core/aup_debugger.ts:2-7 | the context is the given one and the history is empty |
| AupDebugger.AUPDebugger.Log | src/core/aup_debugger.ts:9-14 | exactly one entry is appended at the end; the history grows by a line break and that entry |
| AupDebugger.AUPDebugger.Error | src/core/aup_debugger.ts:16-21 | exactly one error entry is appended at the end; the history grows by a line break and that entry |
| AupDebugger.AUPDebugger.GetHistory | src/core/aup_debugger.ts:23-25 | the history of no entries is empty; split at line breaks, the history gives the entries back when none holds a line break |
| AupDebugger.HistoryLines | src/core/aup_debugger.ts:24 | entries without line breaks come back from their join when it is split at line breaks |
| AupDebugger.AppendedHistory | src/core/aup_debugger.ts:24 | joining one more entry adds a line break and that entry |

## Left out

- Camera, media streams, barcode decoding, the OCR engine, the OpenAI request, the HTTP routes, beeps and downloads. These are I/O and calls into libraries whose code is not part of this model.
- `console.log`, `console.warn` and `console.error` output. It changes no value that the code returns.
- The clock. `AUPDebugger.Log` and `AUPDebugger.Error` take the timestamp as a parameter instead of reading `new Date().toISOString()`.
- `AUPDebugger.Error`: JavaScript's conversion of an arbitrary `err` value to text is not modelled. The caller passes the text.
- The `try`/`catch` blocks of `parseINECredential` and `parseINEFromOCR`. Nothing inside them throws on a string argument.
- `ParseINECredential`: the `?.` and `|| ''` defaults are not modelled separately. With fifteen pieces every piece exists, so they never change a value.
- `toUpperCase` is modelled for the ASCII and Latin-1 lower-case letters with a one-character capital, `ÿ` and `µ` included. Lower-case letters beyond Latin-1 stay as they are. `ß`, whose capital is the two characters `SS`, also stays as it is, so no character expands. The upper-cased text therefore has the original's length, as the server's slicing assumes.
- Strings are sequences of Unicode scalar values, not of UTF-16 code units. Lengths and offsets of characters outside the Basic Multilingual Plane are not modelled.
- `formatINEData`'s headings are kept as constant strings, character for character as they appear in the source file. Their bytes are not interpreted.
- Floating-point image work: contrast, grayscale, thresholding and scaling.
- `InvertRgb`: the inverted buffer is created with the source's length. The last three writes of a pixel are guarded by the length; that guard stands for JavaScript dropping writes past the end of a typed array.
- `WordsGiven`: its exact words are stated by `UpperWordsGiven`, not by its own contract.
- `RemoveWord`: the contract and `RemoveWordKeepsSeparators` say that no standalone `w` is left, that no character is added and that every non-word character stays. `RemoveWordIdle` says that a text with nothing to delete is unchanged. When something is deleted, the exact result is not stated as a formula.
- `StripFragments`: its contract states only what the deletions cannot leave. `StripFragmentsIdle` states that a text with nothing to delete comes out whole. When something is deleted, the exact result is not stated.
- `CleanName`: its contract states the shape of the result. The exact value is stated by `CleanNameKeepsWords`, only for a slice with nothing for the deletions to take.
