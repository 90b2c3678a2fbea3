# izdatelstvo-izdevatelstvo: a verified model of the lesson checker

This is a model of the izdatelstvo-izdevatelstvo editor tooling, which is for authors of
programming books. A lesson is a markdown file. Its annotations reference code files:
an options line `{crop-start-line=3,crop-end-line=9}` or `{crop-query=...}`, followed by
a reference line `<<[title](path)`.

The language server diffs a lesson's code folder against the folder of the lesson before
it. It then warns about every changed line that no annotation of the lesson shows. The
editor extension shows the referenced code when the author hovers over an annotation.

The model covers:

- **`findIgnoredFiles`** (module `IgnoredFiles`): the `{ignore=X}` directives of a lesson.
- **`findCq`** (module `FindCq`):
  - the annotation blocks of a lesson, and how a comma-separated `crop-query=(a,b)` splits one block into several;
  - the lines each block covers: an explicit range, a crop-query, or the whole file;
  - the left-to-right merge into a map from resolved file path to covered lines.
- **`validateTextDocument`** (module `Validate`):
  - which lesson folder is compared with which;
  - the four-step filter applied to each changed line;
  - the severity of each per-file diagnostic;
  - the order of everything sent: missed changes, then one notice per ignored fragment, then "File checked".
- **`calcCropQuery`** (module `CalcCropQuery`) and the **`calcEngine`** tables of the server and of the client (modules `ServerCalcEngine`, `ClientCalcEngine`).
- **The editor extension's hover** (module `Extension`):
  - its own copies of the engine table and the query builder;
  - which two lines it reads;
  - the file path and extension it extracts.

JavaScript semantics the code relies on are written out in two modules:

- `JsStrings`: `indexOf`, `includes`, `split`, `join`, `replace` with a string pattern, `trim`, and `Number` on decimal text.
- `JsRegex`: the regular-expression shapes the code uses:
  - leftmost matching;
  - a greedy `.*` that stops at `\n`, `\r`, U+2028 and U+2029;
  - `[0-9]*` runs.

The system's effects are parameters of the model:

- `resolve` stands for `path.resolve(documentPath, "../", p)` in the server, and for `path.resolve(document.fileName, "../", p)` in the hover.
- `readFile` gives a file's text, or `None` when reading throws.
- `cq` stands for running the cq tool.
- `diff` is the parsed output of diff-jsonify, or `None` when running or parsing it throws.
- `codeLessonFolders` is the output of `ls`.

Several behaviours of the code are worth stating explicitly:

- **Crop-query blocks cover nothing.** `/crop-query=([0-9\-]*)/g` matches every block that contains `crop-query=`. Its capture may be empty. Splitting such a block on `-` leaves a first piece that starts with `{`, which `Number` reads as NaN. So the block's line list is empty, and the engine call at server/src/server.ts:82-98 is never reached. This is proved by `FindCq.CropQueryCoversNothing`, `FindCq.EngineNeverRuns` and `FindCq.FindCqIgnoresEngine`.
- **One unreadable file stops the whole check.** A file that cannot be read rejects the whole `Promise.all`. `findCq` then throws, the exception is caught, and only "File checked" is sent. The model follows the code here (`Validate.FailedPassOnlyChecked`).
- **The ignored list keeps repeats.** It is a list, so a fragment ignored twice gets two notices.
- **An empty coverage entry still counts.** A file whose only annotation is a crop-query has a coverage entry with no lines. That entry is still truthy, so the `+`/`-` artifact filter applies to the file (`Validate.CropQueryScenario`).

## Model

| member | source | states |
|---|---|---|
| JsArrays.Filter | server/src/server.ts:281 | `filter` keeps an element exactly when it is in the input and the test accepts it, and never adds elements |
| JsArrays.FilterCount | server/src/server.ts:281 | an accepted element is kept as many times as it occurs, and a rejected one never |
| JsArrays.FilterAppend | server/src/server.ts:281 | `filter` keeps the input's order: filtering a concatenation concatenates the filtered halves |
| JsArrays.FlatMap | server/src/server.ts:36-46 | a `reduce` that spreads each element's results into the accumulator gives at least one result per element when every element gives at least one |
| JsArrays.FlatMapOne | server/src/server.ts:36-46 | the `reduce` over one element gives that element's results |
| JsArrays.FlatMapAppend | server/src/server.ts:36-46 | the `reduce` over a concatenation is the concatenation of the two reduces, so results stay in element order |
| JsStrings.Split | server/src/server.ts:65 | `split` on one character gives at least one part, no part holds the separator, and there are two or more parts exactly when the separator occurs |
| JsStrings.JoinSplit | server/src/server.ts:41 | joining the parts of a split with the same separator gives back the original string |
| JsStrings.SplitJoin | server/src/server.ts:41 | splitting a join of separator-free parts gives back the parts |
| JsStrings.SplitCount | server/src/server.ts:73 | `split` on a character gives one more part than there are occurrences of that character |
| JsStrings.LineCount | src/extension.ts:125 | `split("\n").length - 1` is the number of `\n` characters in the file |
| JsStrings.RemoveFirst | server/src/server.ts:28 | `replace("}", "")` leaves a string without `}` unchanged; otherwise it drops exactly one `}`, the first, keeping the text before it and after it unchanged |
| JsStrings.ReplaceFirst | server/src/server.ts:43 | `replace` with a string pattern that does not occur changes nothing; when it occurs, the length changes by the replacement's length minus the pattern's |
| JsStrings.ReplaceFirstSelf | server/src/server.ts:43 | replacing a pattern's first occurrence with the pattern itself leaves the string unchanged |
| JsStrings.ReplaceFirstAt | server/src/server.ts:43 | `replace` with a string pattern splices the replacement in at the first occurrence only |
| JsStrings.NatToString | server/src/calcCropQuery.ts:11 | the decimal text of a number is a non-empty run of digits |
| JsStrings.NatToStringRoundTrip | server/src/calcCropQuery.ts:11 | reading back the decimal text of `n` gives `n` |
| JsStrings.JsNumber | server/src/server.ts:51-56 | `Number` is a number exactly when the trimmed text is all digits, and then it is their decimal value (0 for blank text) |
| JsStrings.TrimWindow | server/src/server.ts:65 | `trim` returns the part of the text between its leading and trailing white space |
| JsStrings.NonDigitIsNaN | server/src/server.ts:65 | the model's `Number` (digits and white space only) reads a text holding any other character as NaN |
| JsStrings.JsNumberOfDigits | server/src/server.ts:51-56 | `Number` of a digit string is its decimal value, and 0 for the empty string |
| JsStrings.BraceIsNaN | server/src/server.ts:65 | `Number` of a text holding a `{` is NaN |
| JsStrings.LastSegmentEnds | src/extension.ts:122 | `split(".").reverse()[0]` holds no dot, ends the string, follows its last dot, and is the whole string when there is no dot |
| JsRegex.LineEnd | server/src/server.ts:35 | the current line ends at a line terminator or at the end of the text |
| JsRegex.LineEndFirst | server/src/server.ts:35 | no line terminator comes between the offset and the end of its line, so `.` matches everything there |
| JsRegex.LastIndexInLast | server/src/server.ts:24 | the suffix found is the last one in the window, and there is none when it does not occur there |
| JsRegex.GreedyFrom | server/src/server.ts:24 | a `/prefix.*suffix/` match starts where the prefix is followed on its line by the suffix, and ends at the last suffix on that line |
| JsRegex.GreedyStartLeftmost | server/src/server.ts:24 | the match starts at the leftmost such position, and there is no match when no position qualifies |
| JsRegex.FirstWhereLeftmost | server/src/server.ts:35 | a regex search scans left to right: the position found is the first one that matches, and none is found when no position in the window matches |
| JsRegex.GreedyCaptureInLine | src/extension.ts:121 | a `/prefix(.*)suffix/` capture holds no line terminator, and the text holds prefix, capture and suffix one after another |
| JsRegex.GreedyCaptureFirst | server/src/server.ts:49 | `/prefix(.*)suffix/` captures from the first prefix up to the last suffix before the end of that prefix's line |
| JsRegex.GreedyCaptureExists | server/src/server.ts:49 | `/prefix(.*)suffix/` matches exactly when some prefix is followed on its line by a suffix |
| JsRegex.GreedyCaptureOnLine | server/src/server.ts:49 | when the text after the first prefix is one line ending in the suffix, as the `](path)` tail of a block is, `/prefix(.*)suffix/` captures everything between them |
| JsRegex.RunCapture | server/src/server.ts:52 | `/prefix([0-9]*)/` matches exactly when the prefix occurs; the capture is the longest run of class characters right after the first prefix |
| JsRegex.AllMatchesEach | server/src/server.ts:24 | every match a `/g` search returns is a match of the pattern, whatever property each match of the pattern has |
| JsRegex.WholeMatch | server/src/server.ts:24 | a `/g` search whose first match is the whole text returns just that text |
| IgnoredFiles.IgnoreMatches | server/src/server.ts:24 | every match of `/\{ignore=.*\}/g` starts with `{ignore=` and ends with `}` |
| IgnoredFiles.IgnoreMatchesShape | server/src/server.ts:24 | the `/g` scan of `/\{ignore=.*\}/` yields only texts of that shape |
| IgnoredFiles.IgnoreValue | server/src/server.ts:28 | the value taken from a match holds no `=` |
| IgnoredFiles.IgnoreValueOf | server/src/server.ts:28 | the value of `{ignore=v...` is the text up to the next `=`, with its first `}` removed |
| IgnoredFiles.FindIgnoredFiles | server/src/server.ts:23-32 | a string is ignored exactly when it is non-empty and is the value of some match; every entry is free of `=`, and there is at most one per match |
| IgnoredFiles.KeepNonEmpty | server/src/server.ts:30 | `filter(Boolean)` keeps every non-empty value as many times as it occurs, and drops every empty one |
| IgnoredFiles.KeepNonEmptyAppend | server/src/server.ts:30 | `filter(Boolean)` keeps the order: filtering a concatenation concatenates the filtered halves |
| IgnoredFiles.ValuesOf | server/src/server.ts:27-29 | the `map` gives one value per match, in order |
| IgnoredFiles.OneMatch | server/src/server.ts:24 | a text that is one `{ignore=...}` on one line is that single match |
| IgnoredFiles.SingleDirective | server/src/server.ts:23-32 | a lesson consisting of `{ignore=X}` ignores exactly X, or nothing when X is empty |
| FindCq.OpeningBrace | server/src/server.ts:35 | a block match opens with `{`, either at the start of the text or right after a `\n` |
| FindCq.ReferenceStartIs | server/src/server.ts:35 | `(\n|\r|\r\n)<<` matches exactly when one of those line breaks is followed by `<<`, and the `<<` starts right after it |
| FindCq.FirstBlockLeftmost | server/src/server.ts:35 | the next block is the leftmost offset where the block pattern matches, and there is none when no offset matches |
| FindCq.Blocks | server/src/server.ts:35 | every block found by the `/g` match starts with `{` or `\n{` |
| FindCq.ExpandBlock | server/src/server.ts:37-45 | a block without a non-empty `crop-query=(...)` value stays one block; otherwise it becomes one block per comma-separated part, one more than the value's commas |
| FindCq.ExpandBlocks | server/src/server.ts:36-46 | the `reduce` over the block matches never loses a block |
| FindCq.ExpandBlocksOne | server/src/server.ts:36-46 | the `reduce` over one block gives that block's expansion |
| FindCq.ExpandBlocksAppend | server/src/server.ts:36-46 | the `reduce` keeps block order: expanding a concatenation concatenates the expansions |
| FindCq.ExpandBlockWithoutComma | server/src/server.ts:37-40 | a block without a comma-separated `crop-query=(...)` value passes through unchanged |
| FindCq.ExpandBlockParts | server/src/server.ts:41-45 | when the captured `crop-query=(a,b,...)` value does not occur earlier in the block, the block becomes one block per part, each with the captured value swapped for that part, and the parts join back into the value |
| FindCq.ExpandKeepsStart | server/src/server.ts:43 | splitting keeps the opening `{` of every block when the value does not itself start there |
| FindCq.Range | server/src/server.ts:58-61 | `Array.from` over `hi - lo + 1` gives lo, lo+1, ..., hi, and nothing when hi < lo |
| FindCq.RangeMembership | server/src/server.ts:58-61 | a line is in the range exactly when it lies between the bounds |
| FindCq.LineOption | server/src/server.ts:51-56 | a line option is a number exactly when its name occurs in the block, and then it is the decimal value of the digits after the name (0 for none) |
| FindCq.BlockFilePathOf | server/src/server.ts:49 | in a block `head](path)` with no `]` in the head and the path on one line, the file path is exactly `path` |
| FindCq.BlockChunk | server/src/server.ts:48-99 | a block fails exactly when it has no explicit range, no `crop-query=`, and its file cannot be read; the failure and every chunk carry the block's resolved path |
| FindCq.ExplicitRangeCovers | server/src/server.ts:57-63 | two non-zero line options cover exactly start..end, with `end - start + 1` lines, none when end < start |
| FindCq.WholeFileCovers | server/src/server.ts:72-81 | a block with no crop option covers lines 1 to N, where N is the number of `\n` in the file (nothing for an empty file), and an unreadable file makes the block fail |
| FindCq.CropQueryCoversNothing | server/src/server.ts:64-71 | every block mentioning `crop-query=` without a usable line range contributes an empty line list |
| FindCq.EngineNeverRuns | server/src/server.ts:82-98 | a block's chunk does not depend on what the cq tool would return |
| FindCq.FindCqIgnoresEngine | server/src/server.ts:34-107 | the whole coverage map does not depend on the cq tool |
| FindCq.ChunksAgree | server/src/server.ts:47-100 | two ways of computing a block's chunk that agree on every block give the same chunk list |
| FindCq.Chunks | server/src/server.ts:47-100 | on success there is one chunk per block, and it is that block's chunk |
| FindCq.ChunksFailure | server/src/server.ts:47-100 | `Promise.all` rejects exactly when some block's file cannot be read |
| FindCq.Merge | server/src/server.ts:101-106 | the merged map has an entry for a path exactly when some defined chunk is for that path |
| FindCq.LinesForAppend | server/src/server.ts:101-106 | the lines for a path after one more chunk are the earlier lines followed by that chunk's |
| FindCq.MergeIsConcatenation | server/src/server.ts:101-106 | the merged map has an entry for a path exactly when some chunk is for it, and that entry concatenates those chunks' lines in order |
| FindCq.NoLinesWithoutMention | server/src/server.ts:101-106 | a path no chunk is for gets no lines |
| FindCq.CoveredIff | server/src/server.ts:101-106 | a line is covered for a path exactly when some chunk for that path holds it |
| FindCq.MergeOnlyAdds | server/src/server.ts:101-106 | merging one more chunk never removes a path or a line already present |
| FindCq.MergeTwiceSameCoverage | server/src/server.ts:101-106 | merging the chunks twice covers the same paths and lines as merging them once |
| FindCq.MergeKeepsDuplicates | server/src/server.ts:104 | the same chunk twice gives its lines twice |
| FindCq.ChunksCoverage | server/src/server.ts:47-106 | a path has an entry exactly when some block's chunk is for it, and a line is covered exactly when such a chunk holds it |
| FindCq.FindCq | server/src/server.ts:34-107 | `findCq` throws exactly when some expanded block fails, that is, when some block's file cannot be read |
| FindCq.FindCqCoverage | server/src/server.ts:34-107 | when `findCq` does not throw, a path has an entry exactly when some expanded block's chunk is for that path, and a line is covered exactly when one of those chunks holds it |
| CalcCropQuery.CalcCropQuery | server/src/calcCropQuery.ts:1-12 | the query is never empty, and it contains `-` whenever there is no crop-query capture |
| CalcCropQuery.CropQueryFirst | server/src/calcCropQuery.ts:2-5 | a non-empty crop-query capture wins over the line options and ignores the file length |
| CalcCropQuery.LineOptionsQuery | server/src/calcCropQuery.ts:6-10 | two digit strings, "0" included, give "S-E", which splits back into them |
| CalcCropQuery.WholeFileQuery | server/src/calcCropQuery.ts:11 | otherwise the query is "1-N", and N reads back as the line count |
| ServerCalcEngine.CalcEngine | server/src/calcEngine.ts:2-17 | the engine is one of typescript, babylon, treesitter or auto |
| ServerCalcEngine.TypeScriptExtensions | server/src/calcEngine.ts:4-7 | ts and tsx map to typescript |
| ServerCalcEngine.JavaScriptExtensions | server/src/calcEngine.ts:8-11 | js and jsx map to babylon |
| ServerCalcEngine.JsonExtension | server/src/calcEngine.ts:12-13 | json maps to treesitter |
| ServerCalcEngine.OtherExtensionsAreAuto | server/src/calcEngine.ts:14-15 | every other extension, css and TS included, maps to auto |
| ClientCalcEngine.CalcEngine | client/src/calcEngine.ts:1-18 | the engine is one of typescript, babylon or treesitter, and never auto |
| ClientCalcEngine.ScriptExtensions | client/src/calcEngine.ts:3-11 | ts and tsx map to typescript, and js and jsx map to babylon |
| ClientCalcEngine.TreeSitterByDefault | client/src/calcEngine.ts:12-17 | json, css and every other extension map to treesitter |
| ClientCalcEngine.AgreesWithServer | client/src/calcEngine.ts:1-18 | the client and server tables agree exactly on ts, tsx, js, jsx and json |
| Validate.LessonIdFrom | server/src/server.ts:213 | the capture comes from the leftmost `lesson_<digits>.` match and is digits, one dot, digits; there is none exactly when no such match occurs |
| Validate.LessonId | server/src/server.ts:213 | `String(...)` of the capture is "undefined" exactly when no lesson id occurs, and otherwise holds a dot |
| Validate.FirstIncluding | server/src/server.ts:234-240 | the first folder whose name includes the lesson id, with no earlier folder including it |
| Validate.FindLesson | server/src/server.ts:233-240 | the `find` loop stops at the first folder including the lesson id |
| Validate.LessonPair | server/src/server.ts:241-252 | when the first folder including the id is at index i > 0 and both names are non-empty, the pair is folder i and folder i - 1; otherwise, at index 0 included, there is no pair |
| Validate.Classify | server/src/server.ts:265-280 | the `map` callback keeps a change, unaltered, exactly when its file is not ignored and, when the file has a coverage entry, the line is not covered and the content is not a bare `+` or `-` |
| Validate.UnmentionedChanges | server/src/server.ts:264-281 | a change is kept exactly when it is in the file's changes and survives the callback, and no more changes are kept than the file has |
| Validate.UnmentionedChangesCount | server/src/server.ts:264-281 | a surviving change is kept as many times as the diff lists it, any other change never |
| Validate.UnmentionedChangesOne | server/src/server.ts:264-281 | one change is kept exactly when it survives |
| Validate.UnmentionedChangesAppend | server/src/server.ts:264-281 | the filter keeps diff order: the changes kept from a concatenation are those kept from each half, in turn |
| Validate.SurvivorsReported | server/src/server.ts:294 | something is kept exactly when some change survives |
| Validate.AdditionsFrom | server/src/server.ts:283-288 | the `reduce` is true exactly when it starts true or some change is an addition |
| Validate.EntryDiagnostic | server/src/server.ts:283-324 | a file gets a diagnostic exactly when some change survives; it names the file and its surviving changes, and it is an Error exactly when one of them is an addition, else a Warning |
| Validate.MissedDiagnosticsStep | server/src/server.ts:263-325 | each diff entry appends at most its own diagnostic |
| Validate.IgnoredNotices | server/src/server.ts:326-336 | one Information notice per ignored fragment, naming that fragment, in order |
| Validate.CheckedDiagnostics | server/src/server.ts:253-349 | whatever the `try` block did, the last diagnostic sent is "File checked" |
| Validate.ReportMissedChanges | server/src/server.ts:263-325 | the loop over the diff entries pushes exactly the per-file diagnostics, in entry order |
| Validate.ReportIgnoredFiles | server/src/server.ts:326-336 | the loop pushes one Information notice per ignored fragment, in order |
| Validate.ValidateTextDocument | server/src/server.ts:210-351 | nothing is sent exactly when there is no lesson pair; otherwise the sent diagnostics are the checked diagnostics for that pair |
| Validate.CheckLesson | server/src/server.ts:253-349 | the `try` block and the final push send the missed changes and the ignore notices when the diff and `findCq` succeed, then "File checked" |
| Validate.MissedDiagnosticsSound | server/src/server.ts:263-325 | every per-file diagnostic is the diagnostic of some diff entry, and there are at most as many as entries |
| Validate.MissedDiagnosticsComplete | server/src/server.ts:263-325 | every entry with a surviving change has its diagnostic sent |
| Validate.IgnoredFileSilent | server/src/server.ts:267-269 | a file matched by an ignore fragment never has a change reported |
| Validate.UncoveredFileKeepsAll | server/src/server.ts:270-272 | a file without a coverage entry has every change reported |
| Validate.CoveredLineNeverReported | server/src/server.ts:273-275 | a covered line is never reported |
| Validate.ArtifactsDroppedOnlyWithCoverage | server/src/server.ts:276-278 | `+` and `-` artifacts are dropped exactly when the file is not ignored but has a coverage entry |
| Validate.MoreCoverageFewerMisses | server/src/server.ts:264-281 | covering at least the same lines of every file with an entry never reports more changes, nor any change not reported before |
| Validate.FailedPassOnlyChecked | server/src/server.ts:337-349 | when the diff or `findCq` throws, only "File checked" is sent |
| Validate.CheckedDiagnosticsShape | server/src/server.ts:326-349 | "File checked" comes last, and exactly once |
| Validate.NoticesBeforeChecked | server/src/server.ts:326-349 | no diagnostic before the last one is "File checked" |
| Validate.RangeScenario | server/src/server.ts:263-298 | with lines 1-10 covered, additions at 1, 5 and 12 report only line 12, as an Error |
| Validate.RangeUnmentioned | server/src/server.ts:264-281 | with lines 1-10 covered, of additions at 1, 5 and 12 only the one at 12 survives |
| Validate.CoveredUnmentioned | server/src/server.ts:264-281 | with lines 1 and 5 covered and 12 not, of additions at 1, 5 and 12 only the one at 12 survives |
| Validate.IgnoreScenario | server/src/server.ts:267-269 | an ignored file gets no diagnostic and gets one notice |
| Validate.CropQueryScenario | server/src/server.ts:270-281 | an empty coverage entry reports a removal at 23 and an addition at 30 as an Error, and drops a "+" artifact |
| Validate.CropQueryUnmentioned | server/src/server.ts:270-281 | with an empty coverage entry, a removal at 23 and an addition at 30 survive and a "+" artifact does not |
| Validate.WholeFileScenario | server/src/server.ts:273-298 | with a 40-line file covered, an addition at 41 is reported as an Error |
| Extension.SameEngineAsServer | src/extension.ts:15-30 | the extension's engine table equals the server's for every extension |
| Extension.SameCropQueryAsServer | src/extension.ts:32-43 | the extension's query builder equals the server's for every options line and length |
| Extension.HoverLines | src/extension.ts:111-119 | on a `<<` line the hover reads the previous line and that line, otherwise that line and the next; it fails exactly when that other line is outside the document |
| Extension.HoverEitherLine | src/extension.ts:111-119 | hovering either line of an annotation reads the same two lines |
| Extension.HoverFilePath | src/extension.ts:121 | the file path holds no line terminator and, when non-empty, appears in the path line between `(` and `)` |
| Extension.HoverFilePathFirst | src/extension.ts:121 | when the first `(` of the line is followed on its line by a `)`, the file path runs from that `(` to the last `)` before the line ends |
| Extension.HoverFilePathNone | src/extension.ts:121 | with no `(` followed on its line by a `)`, the file path is "" |
| Extension.ReferencePath | src/extension.ts:121 | on `<<[title](path)`, with no `(` in the title and the path on one line, the file path is exactly `path` |
| Extension.FileExtension | src/extension.ts:122 | the extension holds no dot and ends the path; when the path has a dot, the extension follows it |
| Extension.ExtensionOfName | src/extension.ts:122 | the extension of `base.ext` is `ext`, whatever dots `base` holds |
| Extension.ExtensionWithoutDot | src/extension.ts:122 | a path without a dot is its own extension |
| Extension.HoverCall | src/extension.ts:111-133 | a hover calls cq exactly when both lines exist and the file, resolved against the markdown file's folder, can be read; cq gets that resolved path, a non-empty query and one of the four engines |
| Extension.CallFor | src/extension.ts:121-130 | the call built from the two lines has a non-empty query and one of the four engines |
| Extension.CallForIsServer | src/extension.ts:125-130 | the call's query and engine are the server's `calcCropQuery` and `calcEngine` for the same lines |
| Extension.HoverCallOfLines | src/extension.ts:120-133 | the call uses the server's query for the options line and the file's line count, the resolved path, and the server's engine for the extension of the path as written |
| Extension.AnnotationHover | src/extension.ts:111-133 | hovering either line of `{options}` / `<<[title](name.ext)` asks cq for the options' query on `name.ext` resolved against the markdown file's folder, with the engine of `ext` |

## Left out

- The language-server and editor plumbing is left out: connection setup, capabilities, the settings cache, document events, hover registration, the commands and the LanguageClient startup. client/src/extension.ts is not part of this model, because its only logic duplicates src/extension.ts.
- The shell commands and file reads are inputs, not modelled: `ls`, diff-jsonify with its `JSON.parse`, cq with its `JSON.parse`, and `readFile`. `path.resolve` is the parameter `resolve`.
- The chapter lookup through `module_<n>` (server/src/server.ts:214-230) only builds the folder that `ls` lists, so the listing is taken as given. A failing `ls` (an unhandled rejection) is not modelled.
- `updateFolderIds` (src/extension.ts:45-98) is not modelled. It renames folders on disk and pads numbers with the locale-dependent `toLocaleString`.
- `Promise.all` runs the blocks concurrently; the model runs them in order. When several files cannot be read, the model fails on the first one in block order. Which failure is reported does not change the diagnostics sent.
- Diagnostic details are not modelled: message texts, `new Date().toLocaleTimeString()`, `positionAt` ranges, the `source` field, and the `relatedInformation` list that is sent when the client supports it. The error messages for a missing lesson are not modelled either.
- The hover's Markdown rendering and its error message are not modelled.
- JsStrings.JsNumber: `Number` is exact for optional whitespace around decimal digits; every other text (hexadecimal, exponent, sign, Infinity) reads as NaN. Line options capture only `[0-9]*`, and the first `-`-split piece of a block starts with `{`, so such texts decide nothing unless a crop-query value also occurs at the very start of a block (see FindCq.ExpandKeepsStart).
- FindCq.Range: integers are unbounded. `Array.from` with a length too large for an array (a RangeError) and floating-point line numbers are not modelled.
- JsStrings.ReplaceFirst: the `$` substitution patterns of `String.replace` are not modelled. With a string pattern, JavaScript expands `$$`, `$&`, `` $` `` and `$'` in the replacement, so a crop-query part holding one of them would be expanded.
- FindCq.ExpandKeepsStart: it requires that the crop-query value does not itself occur at the very start of the block. `replace` substitutes the first occurrence of the value, which could otherwise be an earlier, unrelated one.
- Extension.ReferencePath: stated for titles without `(`. `/\((.*)\)/` starts at the first `(` of the line, so a title holding one yields a different path; Extension.HoverFilePathFirst states what is extracted when the first `(` is followed on its line by a `)`, and Extension.HoverFilePathNone when no `(` is.
- Extension.HoverCall: the number of lines is computed from the file text that `readFile` returns. The cq run itself and a failing cq call (which shows an error in the hover) are not modelled; the model stops at the call's arguments.
- Validate.Survives and Validate.MissedDiagnostics carry no contract of their own. What survives is stated by Validate.Classify, and the per-file diagnostics by Validate.MissedDiagnosticsSound, Validate.MissedDiagnosticsComplete and Validate.MissedDiagnosticsStep.
