# FDF encoder and field-dump parser

This project models the two text-processing cores of a Node.js library that fills PDF forms through `pdftk`:

- **The FDF encoder (`createFdf`).** It turns an ordered record of field names and values into a Forms Data Format document. The document has a fixed header, then one `/T (name) /V (value)` dictionary per key, then a fixed footer. Names and values are escaped for PDF literal strings by `escapeString`. That function doubles backslashes and escapes both parentheses. It maps `null` and `undefined` to the empty string.
- **The field-dump parser.** This is the pure half of `generateFieldJson`. The text that `pdftk <file> dump_data_fields_utf8` prints is split at `---`. The first piece is dropped. Each remaining chunk becomes a `FormField` descriptor built by leftmost-match regular expressions:
  - `FieldName:`, `FieldValue:` and `FieldValueDefault:` take the rest of the line.
  - `FieldType:`, `FieldFlags:` and `FieldMaxLength:` take a run of a character class.
  - `fieldOptions` is the sorted list of trimmed `FieldStateOption:` values. It is filled only when the option test succeeds. That test uses one global (`/g`) regular expression shared by all chunks, so its `lastIndex` carries over from one chunk to the next. The model threads that `lastIndex` explicitly.

Modules:

- `Wrappers` (`wrappers.dfy`): `Option`.
- `Text` (`text.dfy`):
  - substring search and line ends;
  - ECMAScript `String.prototype.trim`, over the exact WhiteSpace and LineTerminator code points;
  - `String.prototype.split` on a fixed separator, with `Join` as its inverse.
- `Sorting` (`sorting.dfy`): lexicographic order, and an insertion sort that stands in for `Array.prototype.sort`.
- `Fdf` (`fdf.dfy`):
  - escaping;
  - the document;
  - a reader for that document, against which the round-trip properties are stated. The code itself has no reader.
- `FieldJson` (`field_json.dfy`):
  - the two regular-expression shapes;
  - `getFieldOptions`;
  - the option-test state machine;
  - the dump parser;
  - a corrected parser for the finding below.

Escaping and the parser follow the code as written.

**Two behaviours of the code worth knowing.**

- The chunks are not parsed independently. All chunks share `regOptions` (`src/generate-field-json.ts:39`) and so its `lastIndex`. A chunk that has option lines can therefore get `fieldOptions: []` (see Findings). `ParseDump` follows the code, and the repository's own sample expects `fieldOptions: []` for the `basketball` field (`test/generate-field-json.test.ts:56-64`). The corrected parser, `ParseDumpIntended`, is kept beside it.
- The `FieldName:` line is not required. A chunk without it gets `title: ""`, like every other missing attribute.

## Model

| member | source | states |
|---|---|---|
| Fdf.EscapeString | src/fdf.ts:5-15 | `null`/`undefined` give the empty string; a present value gives its per-character escape. |
| Fdf.ThreePasses | src/fdf.ts:10-13 | The three `replaceAll` passes, run in source order with backslashes first, give exactly the per-character escape of the input. |
| Fdf.ThreePassesEscape | src/fdf.ts:10-13 | For every string, the three passes equal escaping each character on its own. The backslashes inserted by the later passes are never doubled. |
| Fdf.ReplaceAll | src/fdf.ts:11-13 | Every character of the result is an unreplaced character of the input or part of the replacement. The pattern character is gone unless the replacement contains it. |
| Fdf.Escape | src/fdf.ts:10-13 | The escaped text is longer than the input by exactly the number of backslashes and parentheses. |
| Fdf.UnescapeEscape | src/fdf.ts:5-15 | Removing the escapes gives back the name or value that was escaped. |
| Fdf.EscapeInjective | src/fdf.ts:5-15 | Two different strings never escape to the same text. |
| Fdf.EscapeKeepsOrdinary | src/fdf.ts:10-13 | Every character other than `\`, `(` and `)` is copied unchanged and in order. |
| Fdf.EscapePlain | src/fdf.ts:10-13 | A string without backslashes or parentheses is its own escape. |
| Fdf.EscapeBackslashParen | src/fdf.ts:11-13 | `a\(b)` escapes to `a\\\(b\)`. |
| Fdf.EscapeLeavesNoBareParen | src/fdf.ts:41-44 | Every parenthesis of an escaped string follows an odd run of backslashes. The escaped text ends in an even run, so the `)` the template writes after it closes the literal. |
| Fdf.NullValueBlock | src/fdf.ts:41-44 | A key whose value is `null` or `undefined` gets the dictionary with an empty `/V ()`. |
| Fdf.ReadEscaped | src/fdf.ts:41-44 | Reading an escaped string with the literal reader defined here gives the string back and stops exactly at the `)` written after it. |
| Fdf.ParseBlock | src/fdf.ts:40-45 | Reading back the dictionary that `Block` writes for one key gives that key's name and value (an absent value reads as empty), then continues with the text that follows. |
| Fdf.ParseBody | src/fdf.ts:35-51 | The dictionaries that `Body` concatenates, followed by the footer, read back as every key's pair, in key order. |
| Fdf.DecodeCreate | src/fdf.ts:26-53 | Header, body and footer, read with the reader defined here, give back the name/value pairs of all keys, in order. |
| Fdf.CreateFdf | src/fdf.ts:22-54 | The document starts with the header (version line and binary marker) and ends with the footer. An empty record gives header plus footer. Reading the document back with the reader defined here gives exactly the record's pairs in key order. |
| Text.Trim | src/generate-field-json.ts:68-74 | The result has no whitespace at either end. It is a contiguous slice of the input, and only whitespace is cut on each side. |
| Text.TrimPadded | src/generate-field-json.ts:68-74 | Padding an already-trimmed string with whitespace and trimming gives exactly that string. The split into pad, core and pad is unique. |
| Text.TrimmedStays | src/generate-field-json.ts:21 | A string with no whitespace at either end is left as it is by `trim`. |
| Text.TrimIdempotent | src/generate-field-json.ts:21 | Trimming twice equals trimming once. |
| Text.Split | src/generate-field-json.ts:65 | `split("---")` gives at least one piece. Joining the pieces with `---` gives back the dump text: no character is lost or duplicated. |
| Text.SplitPiecesFree | src/generate-field-json.ts:65 | No piece of the split contains the separator. |
| Text.SplitPieceAt | src/generate-field-json.ts:65 | The split is leftmost. Each piece is the text at its offset in the dump. No occurrence of `---` starts at any index inside the piece, even one that runs past its end. |
| Text.SplitPieceEnds | src/generate-field-json.ts:65 | Each piece but the last is followed directly by `---`. The last piece runs to the end of the text. |
| Sorting.Sort | src/generate-field-json.ts:24 | The result is in ascending order and is a permutation of the input. |
| Sorting.SortedUnique | src/generate-field-json.ts:24 | Two ascending permutations of the same strings are equal, so the order of option lines in the chunk never affects the sorted options. |
| FieldJson.ExecLine | src/generate-field-json.ts:33-38 | `prefix([^\n]*)` matches exactly when the prefix occurs. The match is at its leftmost occurrence, and the group is the rest of that line. |
| FieldJson.ExecClass | src/generate-field-json.ts:34-36 | `prefix([class]+)` fails exactly when no occurrence of the prefix is followed by a class character. Otherwise it matches at the leftmost such occurrence, and the group is the maximal non-empty class run. |
| FieldJson.LineField | src/generate-field-json.ts:68-74 | A line attribute is `""` when its prefix is absent. Otherwise it is trimmed and contains no line feed. |
| FieldJson.ClassField | src/generate-field-json.ts:69-72 | A class attribute is `""` when no occurrence matches. It is trimmed and holds only characters of its class. |
| FieldJson.LineFieldIsFirstLine | src/generate-field-json.ts:68-74 | A line attribute is the trimmed rest of the line after the first occurrence of its prefix. |
| FieldJson.ClassFieldIsFirstClassMatch | src/generate-field-json.ts:69-72 | A class attribute is the trimmed class run after the first prefix occurrence that is followed by a class character. Earlier occurrences are skipped. |
| FieldJson.ValueNotAtDefault | src/generate-field-json.ts:37-38 | `FieldValue: ` and `FieldValueDefault: ` never start at the same index. |
| FieldJson.OptionMatches | src/generate-field-json.ts:15-16 | Each match of the global option pattern starts with the prefix and stays on one line. There are none exactly when the prefix does not occur. |
| FieldJson.OptionStarts | src/generate-field-json.ts:15-16 | Every index where the global scan finds a match holds the prefix, at or after the scan's start, and the indices strictly increase, so no index is listed twice. |
| FieldJson.OptionStartsFirstOnLine | src/generate-field-json.ts:15-16 | An index is a match start exactly when it holds the first prefix occurrence of its line, counting from the scan's start. A match runs to the end of its line, so a second occurrence on the same line is never matched. |
| FieldJson.OneStartPerLine | src/generate-field-json.ts:14-25 | Each line with an option prefix gives exactly one match start, at its first occurrence, and no other index gives one. With `OptionMatchesAreLines` and `GetFieldOptions`, this means one trimmed entry per option line. |
| FieldJson.LinesAt | src/generate-field-json.ts:15-16 | There is one text per start index: the slice of the chunk from that index to the end of its line. |
| FieldJson.OptionMatchesAreLines | src/generate-field-json.ts:15-16 | The matches of the global pattern are exactly the slices from each scanned prefix occurrence to the end of its line, in order. |
| FieldJson.LineStartIsScanned | src/generate-field-json.ts:15-16 | An occurrence of the prefix at the start of a line is always found by the global scan, never skipped. |
| FieldJson.OptionValue | src/generate-field-json.ts:19-22 | Re-running the non-global pattern on one match always succeeds. The value is the trimmed text after the prefix. |
| FieldJson.OptionValues | src/generate-field-json.ts:19-22 | There is one value per match, in match order, and each is that match's trimmed text after the prefix. |
| FieldJson.GetFieldOptions | src/generate-field-json.ts:14-25 | The options are sorted and are a permutation of the trimmed value of every option match. There is one option per match. The list is empty exactly when the chunk has no option line. |
| FieldJson.LineStartOptionListed | src/generate-field-json.ts:14-25 | Every option line of the chunk contributes its trimmed value to the options. |
| FieldJson.OptionListedIsLine | src/generate-field-json.ts:14-25 | Every option is the trimmed rest of the line after some occurrence of the prefix in the chunk. |
| FieldJson.SingleOptionLine | src/generate-field-json.ts:14-25 | A chunk that is one option line passes the test from 0, leaving `lastIndex` at its end. Its options are the one trimmed value. |
| FieldJson.TwoOptionLines | src/generate-field-json.ts:14-25 | For a chunk of two option lines, the options are both trimmed values, sorted. |
| FieldJson.OffYesOptions | test/generate-field-json.test.ts:38-46 | The option lines `Yes` then `Off` give `["Off", "Yes"]`. |
| FieldJson.TestOptions | src/generate-field-json.ts:71 | `regOptions.test` succeeds exactly when the prefix occurs at or after `lastIndex`. On success, `lastIndex` moves to the end of the line of the leftmost such occurrence. On failure, it resets to 0. |
| FieldJson.Tests | src/generate-field-json.ts:66-75 | There is one test outcome per chunk. A successful test means the chunk has an option line. |
| FieldJson.LastIndexes | src/generate-field-json.ts:66-75 | There is one `lastIndex` per chunk, and the first chunk starts from the given one. |
| FieldJson.TestsThreaded | src/generate-field-json.ts:66-75 | The test of every chunk `k` succeeds exactly when the prefix occurs at or after the `k`-th threaded `lastIndex`. The next `lastIndex` is the one that test leaves. |
| FieldJson.Describe | src/generate-field-json.ts:67-75 | Every attribute of the record literal is read from this chunk alone. The options are the chunk's sorted options when the test succeeded, and `[]` otherwise. |
| FieldJson.ParseChunks | src/generate-field-json.ts:66-76 | The loop pushes exactly one descriptor per chunk. |
| FieldJson.ParseChunksOptions | src/generate-field-json.ts:71 | A descriptor gets its chunk's options exactly when its test succeeded, and `[]` otherwise. |
| FieldJson.ParseChunksThreaded | src/generate-field-json.ts:66-76 | Descriptor `k` carries its chunk's options exactly when the prefix occurs at or after the `lastIndex` threaded to chunk `k`, and `[]` otherwise. |
| FieldJson.Chunks | src/generate-field-json.ts:65 | There is one chunk per separator. The text before the first separator, followed by the chunks joined with `---`, is the whole dump. No chunk contains `---`. |
| FieldJson.ParseDump | src/generate-field-json.ts:64-78 | Parsing is total: any text yields a descriptor list. There is one descriptor per `---` separator, in chunk order, and text before the first separator yields none. Each attribute comes from that descriptor's own chunk. The options are either `[]` or the chunk's sorted options. |
| FieldJson.FirstChunkOptions | src/generate-field-json.ts:65-71 | The first descriptor carries every option of its chunk. |
| FieldJson.NoOptionLineNoOptions | src/generate-field-json.ts:71 | A chunk without an option line gets `[]`. |
| FieldJson.TestsReset | src/generate-field-json.ts:71 | After a failed test, the next test searches its chunk from the start. |
| FieldJson.ResetAfterFailure | src/generate-field-json.ts:66-75 | After a descriptor without options, the next descriptor carries every option of its chunk. |
| FieldJson.StaleLastIndexDropsOptions | src/generate-field-json.ts:71 | When every option line of a chunk starts before the incoming `lastIndex`, the chunk gets `[]`. |
| FieldJson.SuccessHidesEarlierLines | src/generate-field-json.ts:66-75 | A successful test leaves `lastIndex` at the end of the matched line. If all of the next chunk's option lines start before that point, that chunk gets `[]` although it has options. |
| FieldJson.RepeatedChunkLosesOptions | src/generate-field-json.ts:39 | Of two identical one-option chunks in a row, the first gets its option and the second gets `[]`. |
| FieldJson.SplitTwoChunks | src/generate-field-json.ts:65 | `---c---c` splits into exactly the two chunks `c`, `c` when `c` has no dash. |
| FieldJson.DumpOfRepeatedChunk | src/generate-field-json.ts:64-75 | The dump `---FieldStateOption: g---FieldStateOption: g` gives two descriptors, with options `[trim(g)]` and `[]`. |
| FieldJson.ParseDumpIntended | src/generate-field-json.ts:64-78 | Corrected parser. It gives the same descriptors, but every chunk carries all of its sorted options. |
| FieldJson.AsWrittenDropsOnlyOptions | src/generate-field-json.ts:68-74 | The parser as written and the corrected parser differ at most in a descriptor's options, which the code empties. |
| FieldJson.AsWrittenAgreesAfterReset | src/generate-field-json.ts:66-75 | The code gives the corrected descriptor for the first chunk and for every chunk right after a descriptor without options. |
| FieldJson.TestFromStart | src/generate-field-json.ts:71 | The test of the first chunk, and of any chunk after a descriptor without options, searches from index 0. |

## Left out

- The `pdftk` child process is not modelled: its spawn, its stream events, the error handlers and the `Promise` (`src/generate-field-json.ts:42-64`, `77-79`). `ParseDump` takes the complete dump text as a parameter.
- `Buffer` byte handling is not modelled. `Fdf.CreateFdf` returns the text whose UTF-8 encoding is the buffer. The `Buffer.from(...).toString("utf8")` round trip in `escapeString` is taken to be the identity, which holds for strings of Unicode scalar values. Lone surrogates are out of scope, since Dafny strings cannot hold them.
- The order of `Object.keys` is not modelled: the record is an ordered sequence of `Entry` values, one per key, in the order `Object.keys` would list them. The rule that puts integer-like keys first is not modelled.
- The linting configuration is not modelled: it is tooling and has no runtime behaviour.
- Form filling (`fillForm`, `.toFile`, the file-existence check and the flag list) is left out: it is orchestration over a subprocess and the filesystem.
- The value-mapping adapters `convFieldJson2FDF`, `mapForm2PDF` and `generateFDFTemplate` are not part of this model.
- `FormField`'s `fieldMaxLength` (number or string) and `fieldValue` (boolean or string) are modelled as strings. The parser only ever stores strings in them.
- Sorting.Sort: orders by code point, whereas `Array.prototype.sort` compares UTF-16 code units. The two orders differ only for characters beyond the Basic Multilingual Plane.
- FieldJson.TestOptions: counts `lastIndex` in characters rather than UTF-16 code units. The two counts differ only for characters beyond the Basic Multilingual Plane.
- Fdf.ReadLiteral: keeps an unescaped carriage return as it is, whereas section 7.3.4.2 of ISO 32000-1 has a conforming reader take an unescaped carriage return, or carriage return and line feed, as one line feed. `escapeString` (src/fdf.ts:10-13) leaves carriage returns unescaped, so a value holding one would come back from a conforming reader with a line feed in its place. The round trip of `Fdf.ReadEscaped`, `Fdf.DecodeCreate` and `Fdf.CreateFdf` is stated against the reader defined here, not against a conforming one.
- Fdf.Block and Fdf.Body carry no contract of their own: they only build text. What they write is stated by `Fdf.ParseBlock`, `Fdf.NullValueBlock` and `Fdf.ParseBody`.

## Findings

| source | as written | input that shows it | evidently intended | confidence | as-written member | corrected member |
|---|---|---|---|---|---|---|
| src/generate-field-json.ts:39 | `regOptions` carries the `g` flag and is shared by every chunk. `regOptions.test(field)` at line 71 therefore resumes at the end of the previous chunk's match. | The dump `---FieldStateOption: Yes---FieldStateOption: Yes` gives the second descriptor `fieldOptions: []`. | Every chunk that has an option line gets its sorted options. | medium, not executed | FieldJson.DumpOfRepeatedChunk | FieldJson.ParseDumpIntended |
