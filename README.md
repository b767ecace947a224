# bmcode editor extension: the save pipeline and the formatter

This project models the core of the `bmcode` VS Code extension (`src/extension.js`) in Dafny and
proves properties of that model.

When a document is saved, the extension checks whether its first line carries a
`BM_PROJECT_PATH(<path>)` directive. If it does, the extension:

1. extracts the path from the directive;
2. resolves it to a JSON file, against the first workspace root or against the document's
   directory;
3. compiles the document's trimmed text with Babel and minifies the result with UglifyJS;
4. turns every double quote of the minified code into a single quote;
5. splices the code into the `"evalFunc"` string field of that JSON file and writes the file
   back.

The extension also registers a document formatter and a range formatter for the `bm` language.
Both beautify the whole document and return at most one text edit.

The model is organised by concern:

- `RegexText` holds shared text vocabulary. This covers occurrence at an index, ECMAScript line
  terminators, and the scan a lazy `.*?` performs up to a stop character on one line.
- `Directive` models the directive test of line 39 and the lookbehind extraction of line 69.
- `Paths` models Node's POSIX `path.resolve` and the two-step choice of the target file on
  lines 70-71.
- `Payload` models `trim` (line 78) and the quote substitution (line 90).
- `FieldPatch` models the `"evalFunc"` guard (line 92) and the global replacement (line 96). It
  covers both the replacement as meant, where each value span becomes the payload, and as
  written, with `String.prototype.replace`'s `$` expansion.
- `Document` models the part of a VS Code `TextDocument` the extension reads: its lines,
  `lineCount`, `offsetAt` clamping and `getText(range)`.
- `Formatter` models the two providers and `format`, as methods.
- `Pipeline` holds the save listener and `compressJStoJSON`:
  - the pure functions `Save` and `Compress` give the outcome of a save and the file store it
    leaves behind;
  - the class `FileStore` holds the files as a `map` field, and its methods `OnSave` and
    `CompressJsToJson` update that field step by step.

The methods are specified by those functions, and the lemmas about the functions state what a
save does. The pipeline writes what line 96 as written writes, `$` expansion included
(`FieldPatch.ReplaceAsWritten`). Where the compiled code holds no `$`, `Pipeline.SaveSplices`
shows that this is the intended splice `FieldPatch.Patch`, and the lemmas about the file's new
content go through that splice.

The model takes several things as parameters:

- `compile` stands for Babel followed by UglifyJS. It returns `None` when either throws.
- `beautify` stands for `js_beautify` with the extension's fixed options.
- `roots` is the list of workspace folders.
- `cwd` is the process's working directory, which `path.resolve` falls back on.
- The file system is a `map` from path to contents. `fs.accessSync` succeeds exactly on its
  keys.

## Model

| member | source | states |
|---|---|---|
| Directive.HasDirective | src/extension.js:39 | the test `/BM_PROJECT_PATH( ?)\(.*?\)/g.test(line)`: some index starts an opener followed, on the same line, by a `)`; its properties are stated by `Directive.DirectiveNameIffTest`, `Directive.DirectiveOf` and `Directive.NotDirectives` |
| Directive.DirectiveName | src/extension.js:69 | `line.match(/(?<=(BM_PROJECT_PATH( ?)\()).*?(?=\))/g)[0]`: the first position, from the left, where the lookbehind holds and a `)` follows on the same line, and the text up to that `)`; `None` stands for the `null` whose `[0]` throws; stated by `Directive.DirectiveNameIffTest` and `Directive.DirectiveNameShape` |
| Directive.OpenedBeforeIff | src/extension.js:69 | the lookbehind `(?<=(BM_PROJECT_PATH( ?)\())` holds at a position exactly when an opener, spaced or not, ends there |
| Directive.DirectiveNameIffTest | src/extension.js:69 | the `match(...)[0]` of line 69 is defined exactly when the test of line 39 succeeds, so it never reads `null` on the save path; it is the text between the leftmost match's opener and the first `)` after it |
| Directive.DirectiveNameShape | src/extension.js:69 | the extracted name never contains `)` or a line terminator |
| Directive.DirectiveOf | src/extension.js:39 | `<text without B>BM_PROJECT_PATH(<name>)<rest>`, with or without the one space, passes the test and names exactly `<name>`, for every name without `)` or a line terminator |
| Directive.EmptyParenthesesExample | src/extension.js:69 | `BM_PROJECT_PATH()` names the empty path |
| Directive.NotDirectives | src/extension.js:39 | the test is case-sensitive, allows at most one space before `(`, and needs a closing `)` |
| Paths.Resolve | src/extension.js:70-71 | Node's POSIX `path.resolve(...args)`: the arguments are taken from the right up to the first absolute one (else the working directory), joined with `/` and normalised; stated by `Paths.ResolveIsAbsolute`, `Paths.ResolveResolved` and `Paths.ResolveAppend` |
| Paths.TargetPath | src/extension.js:70-71 | `jsonUri = path.resolve(root, name)` followed by `path.resolve(fileName, '../', name.includes('../') ? name : jsonUri)`; stated by `Paths.TargetChoice` |
| Paths.JoinSplit | src/extension.js:70-71 | splitting a path at `/` and joining the segments again gives the path back, the round trip `path.resolve`'s normalisation relies on |
| Paths.SplitJoin | src/extension.js:70-71 | joining slash-free segments and splitting again gives the segments back |
| Paths.ResolveIsAbsolute | src/extension.js:70-71 | from an absolute working directory, `path.resolve` yields `/` followed by a stack of plain segments (no empty segment, no `.` and no `..`) |
| Paths.ResolveFromAbsolute | src/extension.js:70-71 | an absolute argument overrides every argument before it and the working directory |
| Paths.NormalisedIsFixpoint | src/extension.js:70-71 | normalising a path made of plain segments gives those segments back |
| Paths.ResolveResolved | src/extension.js:71 | resolving an already resolved path, whatever stands before it, gives that path back |
| Paths.ResolveAppend | src/extension.js:71 | resolution runs left to right: `resolve(...args, rel)` equals `resolve(resolve(...args), rel)` |
| Paths.TargetChoice | src/extension.js:70-71 | the target is always absolute; a name without `../` resolves against the first workspace root only, and a name with `../` resolves against the document's directory |
| Paths.TargetIgnoresDocument | src/extension.js:70-71 | without `../` in the name, the document's own path does not affect the target |
| Payload.Trim | src/extension.js:78 | the result is a slice of the text with only trimmable characters cut from each end, and it neither starts nor ends with one |
| Payload.TrimIdempotent | src/extension.js:78 | trimming twice is trimming once |
| Payload.SwapQuotes | src/extension.js:90 | the length is kept; each `"` becomes `'`, and every other character stays where it was |
| Payload.SwapQuotesRemovesQuotes | src/extension.js:90 | the result holds no `"` |
| Payload.SwapQuotesIdempotent | src/extension.js:90 | text without `"` is left alone, so applying the substitution twice is applying it once |
| Payload.SwapQuotesKeepsLines | src/extension.js:90 | the substitution neither adds nor removes a line terminator or a `$` |
| FieldPatch.HasField | src/extension.js:92 | the guard `/"evalFunc":( ?)".*?"/g.test(jsonData)`: some index starts `"evalFunc":"` or `"evalFunc": "` followed, on the same line, by another `"`; stated by `FieldPatch.HasFieldIffSpan` |
| FieldPatch.ReplaceAsWritten | src/extension.js:96 | `jsonData.replace(/(?<="evalFunc":( ?)\").*?(?=\")/g, data)` as written: a global scan that replaces each value span by `data` after `String.prototype.replace`'s `$` expansion, stepping one character past an empty match; this is what the pipeline writes; stated by `FieldPatch.AsWrittenAgreesWithoutDollar` and `FieldPatch.DollarAmpersandKeepsOldValue` |
| FieldPatch.Patch | src/extension.js:96 | the same global scan with `data` inserted verbatim, the splice line 96 is meant to perform; stated by `FieldPatch.PatchReplacesEverySpan`, `FieldPatch.PatchSingleField` and `FieldPatch.PatchIdempotent` |
| FieldPatch.OpensValueIff | src/extension.js:96 | the lookbehind `(?<="evalFunc":( ?)\")` holds at a position exactly when `"evalFunc":"` or `"evalFunc": "` ends there |
| FieldPatch.HasFieldIffSpan | src/extension.js:92-96 | the guard of line 92 holds exactly when the replacement of line 96 has at least one span to replace |
| FieldPatch.NoFieldNoChange | src/extension.js:92-96 | a text the guard rejects comes out of the replacement unchanged, whatever the replacement is |
| FieldPatch.AllSpansOrdered | src/extension.js:96 | the value spans of a text are ordered and do not overlap |
| FieldPatch.PatchReplacesEverySpan | src/extension.js:96 | the intended replacement turns every value span of the text, and nothing else, into the payload |
| FieldPatch.PatchSingleField | src/extension.js:96 | in a file whose only `"evalFunc":` opens one value, that value becomes the payload and every other character is kept |
| FieldPatch.PatchIdempotent | src/extension.js:96 | patching a single-field file twice with the same payload is patching it once, and the patched file still passes the guard |
| FieldPatch.SubstituteWithoutDollar | src/extension.js:96 | `String.prototype.replace`'s expansion leaves a replacement string without `$` as it is |
| FieldPatch.AsWrittenAgreesWithoutDollar | src/extension.js:96 | for a payload without `$`, line 96 as written performs the intended splice |
| FieldPatch.DollarAmpersandKeepsOldValue | src/extension.js:96 | line 96 as written, with payload `$&`, puts the old value back, while the intended splice inserts `$&` |
| Document.LineText | src/extension.js:39 | `document.lineAt(i).text`: line `i` of the text split at `\r\n`, `\r` and `\n`, without its line break; stated by `Document.FirstLineOf` |
| Document.OffsetAt | src/extension.js:113 | `document.offsetAt(position)` after VS Code validates the position: a line past the end is clamped to the last line, a character past the end of its line to that line's end; the result is never past the end of the text |
| Document.GetText | src/extension.js:113 | `document.getText(range)`: the text between the offsets of the range's two ends, taken in order; stated for the whole-document range by `Document.FullRangeText` |
| Document.FullRange | src/extension.js:108-110 | `new Range(new Position(0, 0), new Position(lineCount - 1, lineAt(lineCount - 1).text.length))`; stated by `Document.FullRangeText` |
| Document.SplitLines | src/extension.js:39 | the lines of a text join back to the text, have no line break inside them, and each but the last ends with `\r\n`, `\r` or `\n` |
| Document.FirstLineOf | src/extension.js:39 | line 0 is the text before the first `\r` or `\n`, whatever follows it |
| Document.FullRangeText | src/extension.js:108-110 | the range from (0, 0) to the end of the last line covers the whole text, from offset 0 to its length |
| Formatter.Format | src/extension.js:106-129 | a missing range means the whole document; the result is empty exactly when the beautified text of the range is empty, and otherwise it is one edit that replaces the range by that text |
| Formatter.ProvideDocumentFormattingEdits | src/extension.js:47-51 | the result is the whole-document edit list |
| Formatter.ProvideDocumentRangeFormattingEdits | src/extension.js:56-62 | the requested range is ignored: the result is the same whole-document edit list |
| Formatter.WholeEditReplacesText | src/extension.js:124-128 | applying the whole-document edit replaces the document's text by its beautified text |
| Pipeline.Compress | src/extension.js:68-98 | `compressJStoJSON`: the name lookup, the missing workspace folder, the access check, the compile, the guard and the write, in that order, each failure leaving the store unchanged, the write using line 96 as written; stated by `Pipeline.SaveWritesIff`, `Pipeline.SaveWritesOnlyTarget` and `Pipeline.CompressRuns` |
| Pipeline.Save | src/extension.js:38-42 | the save listener: `Compress` when line 0 passes the test of line 39, otherwise nothing; stated by `Pipeline.SaveTriggers` |
| Pipeline.FileStore.CompressJsToJson | src/extension.js:68-98 | the outcome and the new file store are those of `Compress` on the old store, checked in the order of lines 69-97 |
| Pipeline.FileStore.OnSave | src/extension.js:38-42 | the outcome and the new file store are those of `Save` on the old store |
| Pipeline.SaveWritesOnlyTarget | src/extension.js:72-97 | a save that does not write leaves every file unchanged; one that writes changes only the target, which already existed |
| Pipeline.SaveTriggers | src/extension.js:38-42 | the pipeline runs exactly when line 0 passes the test, and it never ends with the name lookup failing |
| Pipeline.CompressRuns | src/extension.js:68-98 | once a name is found, `compressJStoJSON` ends neither untriggered nor with a missing name |
| Pipeline.SaveWritesIff | src/extension.js:68-98 | a save writes exactly when the directive, a workspace root, an existing target, a successful compile and an `"evalFunc"` field are all present; it then writes the target as line 96 rewrites it with the quote-swapped code, `$` expansion included |
| Pipeline.SaveWrites | src/extension.js:90-97 | when every check passes, the store's only change is the target, rewritten by line 96 as written with the quote-swapped code |
| Pipeline.SaveSplices | src/extension.js:90-97 | when every check passes and the compiled code holds no `$`, the store's only change is the target with every value span replaced by the quote-swapped code |
| Pipeline.SaveIntoSingleField | src/extension.js:96-97 | for compiled code without `$`, a single-field target gets the code, free of `"`, between its field's quotes, and is otherwise kept byte for byte |
| Pipeline.SaveTwiceIsSaveOnce | src/extension.js:68-98 | saving the same document twice into a single-field target leaves the store as the first save left it |
| Pipeline.SaveKeeps | src/extension.js:96-97 | a save whose rewrite of line 96 leaves the target as it is leaves the whole store as it is |
| Pipeline.SaveOfDollarAmpersandKeepsStore | src/extension.js:96-97 | with compiled code `$&`, a save into a single-field target reports a write but leaves the whole store as it was |

## Left out

- The greeting command, the status-bar toggle `hasStatus` (lines 13-26) and the empty editor command (line 32) are not modelled. They only show messages.
- `activate` and `deactivate` (lines 135-147) are VS Code plumbing and are not modelled.
- Babel, UglifyJS and their options (lines 78-90) are not modelled. They are the single parameter `compile`, which returns `None` when either tool throws.
- `js_beautify` and its fixed options (lines 114-124) are the parameter `beautify`. The `options` argument of `format` is not used once it is defaulted, so it is not modelled.
- The notices of lines 75 and 93 are not modelled as messages. They are the outcomes `PathDoesNotExist` and `FieldNotFound`.
- The file system is a map. A failing `readFileSync` or `writeFileSync` on a path that `accessSync` accepted is not modelled.
- The file system's encoding is not modelled. Text is read and written as it stands in the map.
- `process.cwd()` is the parameter `cwd`. Node's Windows path rules are not modelled: paths are POSIX.
- JavaScript strings are UTF-16 code units. The model uses Dafny characters, so text outside the Basic Multilingual Plane is not modelled unit by unit.
- `trim`'s whitespace set (`Payload.IsTrimmable`) is enumerated: TAB, VT, FF, U+FEFF, the space separators of Unicode category Zs (U+0020, U+00A0, U+1680, U+2000 to U+200A, U+202F, U+205F, U+3000), and the four line terminators LF, CR, U+2028 and U+2029. Later additions to Zs are not modelled.
- The extension's listeners can run concurrently with other edits of the same file. Concurrency is not modelled.
- The `token` arguments of the formatting providers are not modelled, because they are never read.
- A relative `./cfg.json` is resolved against the first workspace root, not the document's directory. The document's directory is used only when the name contains `../`. The model follows the code (`Paths.TargetChoice`).
- FieldPatch.PatchIdempotent: proved only for a target whose one `"evalFunc":` opens a value free of `"` and line terminators, and for a payload free of `"` and line terminators that is not `evalFunc`. The patch is not idempotent in general. With payload `evalFunc`, the file `"evalFunc":"old":"zzz"` becomes `"evalFunc":"evalFunc":"zzz"`, which holds a second field.
- Pipeline.SaveTwiceIsSaveOnce: proved under the same restrictions as `FieldPatch.PatchIdempotent`, for the same reason, and only for compiled code without `$`. With code `$'`, line 96 as written inserts the text after the value, so a second save changes the file again.
- Pipeline.SaveIntoSingleField: proved only for compiled code without `$`. With `$` in the code, line 96 as written expands it; `Pipeline.SaveWritesIff` states the content written then, and `Pipeline.SaveOfDollarAmpersandKeepsStore` shows the case `$&`.
- Document.GetText: its contract states only that the text of a range is no longer than the document. How the range maps to offsets is stated through `Document.FullRangeText`.

## Findings

| source | as written | input that shows it | evidently intended | confidence | as-written member | corrected member |
|---|---|---|---|---|---|---|
| src/extension.js:96 | `jsonData.replace(regex, data)` passes the compiled code as a replacement *string*, so `$&`, `` $` ``, `$'`, `$1` and `$$` in the code are expanded by `String.prototype.replace` | target `{"evalFunc":"OLD"}` and compiled code `$&`: the file is written back with `OLD` in place | the compiled code is inserted verbatim, for example with a replacer function `() => data` | not executed; high that the expansion happens, medium that it matters for real minified code | FieldPatch.DollarAmpersandKeepsOldValue | FieldPatch.PatchReplacesEverySpan |
