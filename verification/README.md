# Define: query history, search templates and the view-model state

A Dafny model of the data layer of the Define Android app. A user types a
word. The app substitutes it into one of several search templates
("query variants", URL patterns with a `$` placeholder) and keeps a
most-recent-first history of past lookups. The model covers three parts:

- **Query history codec** (`data/Query.kt`). This is the `Query` record and
  the line-oriented history file: `<queryVariantIndex> <content>`, split at
  the first space.
- **Query variants codec** (`data/QueryVariant.kt`). This is the
  `QueryVariant` record with its "must contain `$`" invariant, `render`,
  the built-in `GOOGLE_DEFINE` variant, and the `<colorULong> <template>` file.
- **View model** (`ui/DefineViewModel.kt`). This is the state
  `(queryVariants, queryHistory, fileLoadingIsDone)` with
  `loadInitialDataFromDisk`, `persistDataToDisk`, `createNewQueryVariant`
  and `recordNewQuery`.

Modules: `Wrappers` (Option/Result), `Decimal` (`toIntOrNull`,
`toULongOrNull`, `toString`), `Text` (`indexOf`, `isBlank`, the line
splitting of `useLines`), `Storage` (the file store), `QueryHistory`,
`QueryVariants` and `ViewModel`.

Modelling choices:

- **Files.** The file store is a `map<string, string>` from file name to text.
  An absent name stands for every way `openFileInput` can fail, whether a
  first install or an I/O error. Both become a failed `Result`, as with
  `runCatching`.
- **Reading.** Reading splits the text the way `BufferedReader.readLine` does.
  A line ends at `\n`, `\r` or `\r\n`. A final terminator does not start an
  empty line.
- **Writing.** Writing emits each line followed by `\n`. Round-trip lemmas
  therefore require that contents and templates hold no line terminator.
- **Integers.** `Int` is the subset type `Int32` and `ULong` the subset type
  `ULong`. The parsers accept exactly the syntax and range of the Kotlin
  functions, restricted to ASCII digits.
- **Color.** A `Color` is opaque: its packed 64-bit `value`, written in
  decimal and rebuilt unchanged. `GOOGLE_DEFINE`'s color is the value Compose
  packs for `Color(0, 100, 200, 120)`.
- **Initial variant.** `DefineViewModel.kt` imports `GOOGLE_DEFINE_QUERY`,
  which is not part of this model. The initial variant list is taken to be
  `[QueryVariant.GOOGLE_DEFINE]`.
- **Shipped history writer.** `it.write(query.queryVariantIndex)` calls
  `Writer.write(int)`, which writes ONE character: the low 16 bits of the
  index. It does not write decimal digits. A lone surrogate cannot be encoded
  in UTF-8 and reaches the file as `?`. `SaveQueryHistoryFileAsWritten`
  models this, and `ViewModel.PersistDataToDisk` uses it.
  `SaveQueryHistoryFile` and `ViewModel.PersistDataToDiskCorrected` write the
  documented decimal format (see Findings).
- **What the state holder does and does not do.**
  - `recordNewQuery` prepends without de-duplication.
  - A variant line is `<colorULong> <template>` with one space separator.
  - The view model has no delete, update or selected-index operation, and
    no guard against overlapping saves.
  - History lines are bounds-checked only from above.

## Model

| member | source | states |
|---|---|---|
| Decimal.NatToDecimal | app/src/main/java/com/pierbezuhoff/define/data/QueryVariant.kt:68 | `ULong.toString()`: a non-empty digit string with no leading zero that denotes the value |
| Decimal.IntToDecimal | app/src/main/java/com/pierbezuhoff/define/data/Query.kt:11 | decimal text of an `Int`: digits with a leading `-` exactly when the value is negative |
| Decimal.ParseULong | app/src/main/java/com/pierbezuhoff/define/data/QueryVariant.kt:46 | `toULongOrNull` accepts only an optional `+` followed by digits |
| Decimal.ParseULongDigits | app/src/main/java/com/pierbezuhoff/define/data/QueryVariant.kt:46 | every optional-`+` non-empty digit string (leading zeros allowed) reads as its value when it is below 2^64, and is rejected otherwise |
| Decimal.ParseULongBoundary | app/src/main/java/com/pierbezuhoff/define/data/QueryVariant.kt:46 | 2^64 − 1 is accepted and 2^64 is rejected |
| Decimal.ParseInt32 | app/src/main/java/com/pierbezuhoff/define/data/Query.kt:27 | `toIntOrNull` accepts only an optional `+`/`-` followed by digits |
| Decimal.ParseInt32Digits | app/src/main/java/com/pierbezuhoff/define/data/Query.kt:27 | every optionally signed non-empty digit string (leading zeros allowed) reads as its signed value when in the 32-bit range, and is rejected otherwise |
| Decimal.ULongRoundTrip | app/src/main/java/com/pierbezuhoff/define/data/QueryVariant.kt:46 | reading the decimal text of any `ULong` gives the value back |
| Decimal.Int32RoundTrip | app/src/main/java/com/pierbezuhoff/define/data/Query.kt:27 | reading the decimal text of any `Int` (negatives included) gives the value back |
| Decimal.ParseInt32Edges | app/src/main/java/com/pierbezuhoff/define/data/Query.kt:27 | empty text, a bare sign and 2147483648 are rejected; -2147483648 and `+07` are accepted |
| Decimal.ParseULongEdges | app/src/main/java/com/pierbezuhoff/define/data/QueryVariant.kt:46 | empty text, a bare `+` and `-1` are rejected; `+5` is 5 |
| Text.IndexOf | app/src/main/java/com/pierbezuhoff/define/data/Query.kt:23 | `indexOf(' ')` finds the FIRST occurrence, or reports absence exactly when the character is absent |
| Text.IndexOfAfterPrefix | app/src/main/java/com/pierbezuhoff/define/data/Query.kt:23 | in `p + [c] + rest` with `c` not in `p`, the first `c` is at `|p|` |
| Text.BlankExamples | app/src/main/java/com/pierbezuhoff/define/data/QueryVariant.kt:48 | `isNotBlank` treats the empty text, tab/LF/CR/space and U+00A0, U+2007, U+3000 as blank, and text holding `$`, U+0085 or U+200B as non-blank |
| Text.Lines | app/src/main/java/com/pierbezuhoff/define/data/Query.kt:21 | `useLines` yields terminator-free lines, no more lines than characters |
| Text.LinesOfJoin | app/src/main/java/com/pierbezuhoff/define/data/QueryVariant.kt:67-72 | splitting text written line by line with `\n` gives the lines back when none holds a terminator |
| Text.LinesExamples | app/src/main/java/com/pierbezuhoff/define/data/Query.kt:21 | `\r\n` is one terminator; a trailing terminator adds no empty line; `"\n"` is one empty line |
| Storage.ReadLines | app/src/main/java/com/pierbezuhoff/define/data/Query.kt:19-21 | opening succeeds exactly when the file exists, and then yields its lines |
| Storage.WriteText | app/src/main/java/com/pierbezuhoff/define/data/Query.kt:46 | `openFileOutput` leaves the file holding exactly the written text and changes no other file |
| QueryHistory.DecodeLine | app/src/main/java/com/pierbezuhoff/define/data/Query.kt:22-32 | a kept line has a space, an index below the variant count, and its content is a proper suffix of the line |
| QueryHistory.DecodeLines | app/src/main/java/com/pierbezuhoff/define/data/Query.kt:22-32 | the decoded history is no longer than the input, every index is in bounds, every entry comes from some input line |
| QueryHistory.LoadQueryHistoryFile | app/src/main/java/com/pierbezuhoff/define/data/Query.kt:13-37 | the load succeeds exactly when the file can be opened; all loaded indices are below the variant count |
| QueryHistory.WrittenIndexChar | app/src/main/java/com/pierbezuhoff/define/data/Query.kt:50 | `write(Int)` emits the character whose code is the index for non-surrogate indices below 65536, `?` for surrogate codes, and index + 65536 for small negative indices |
| QueryHistory.WrittenIndexCharKeepsLow16Bits | app/src/main/java/com/pierbezuhoff/define/data/Query.kt:50 | indices that differ by a multiple of 65536 are written as the same character |
| QueryHistory.AsWrittenLine | app/src/main/java/com/pierbezuhoff/define/data/Query.kt:50-53 | a shipped line is the index character, a space and the content, two characters longer than the content |
| QueryHistory.AsWrittenFileLines | app/src/main/java/com/pierbezuhoff/define/data/Query.kt:49-54 | the shipped file reads back as one line per query, in list order, when no index character or content is a line terminator |
| QueryHistory.AsWrittenIndexCorrupted | app/src/main/java/com/pierbezuhoff/define/data/Query.kt:50 | the shipped writer stores indices 48 to 57 as the characters 0 to 9, which read back as indices 0 to 9 |
| QueryHistory.AsWrittenCorruptionExample | app/src/main/java/com/pierbezuhoff/define/data/Query.kt:50 | a lookup with variant 49 reads back as a lookup with variant 1 |
| QueryHistory.EncodeLine | app/src/main/java/com/pierbezuhoff/define/data/Query.kt:10-12 | in the documented line, the first space follows the decimal index and the content is the whole remainder |
| QueryHistory.SaveQueryHistoryFileAsWritten | app/src/main/java/com/pierbezuhoff/define/data/Query.kt:40-56 | the shipped writer uses exactly three characters per query besides the content; the file starts with the index character and a space |
| QueryHistory.SaveQueryHistoryFile | app/src/main/java/com/pierbezuhoff/define/data/Query.kt:10-12 | the documented-format writer replaces only the history file, which starts with the first index in decimal and a space |
| QueryHistory.DecodeLineWithoutSpace | app/src/main/java/com/pierbezuhoff/define/data/Query.kt:23-26 | a line without a space is dropped |
| QueryHistory.DecodeLineSplitsAtFirstSpace | app/src/main/java/com/pierbezuhoff/define/data/Query.kt:23-31 | for a line with a space: kept iff the prefix before the first space is an `Int` below the variant count, with the whole remainder as content |
| QueryHistory.DecodeLineKeepsSpacesInContent | app/src/main/java/com/pierbezuhoff/define/data/Query.kt:29-30 | `"3 a b"` with four variants is `Query(3, "a b")` |
| QueryHistory.DecodeLineEmptyPrefix | app/src/main/java/com/pierbezuhoff/define/data/Query.kt:27-28 | a line starting with a space (empty prefix) is dropped |
| QueryHistory.EncodeLineRoundTrip | app/src/main/java/com/pierbezuhoff/define/data/Query.kt:10-12 | the documented line of a query decodes to that query exactly when its index is below the variant count |
| QueryHistory.BoundIsStrict | app/src/main/java/com/pierbezuhoff/define/data/Query.kt:28 | index `size - 1` is kept, index `size` is dropped |
| QueryHistory.NegativeIndexKept | app/src/main/java/com/pierbezuhoff/define/data/Query.kt:28 | negative indices survive decoding for every variant count |
| QueryHistory.DecodeLinesAppend | app/src/main/java/com/pierbezuhoff/define/data/Query.kt:22 | decoding distributes over concatenation, so survivors keep input order |
| QueryHistory.DecodeLinesKeepsValid | app/src/main/java/com/pierbezuhoff/define/data/Query.kt:22-32 | when every line is well formed, nothing is dropped and the k-th entry is the k-th line's query |
| QueryHistory.HistoryRoundTrip | app/src/main/java/com/pierbezuhoff/define/data/Query.kt:10-30 | saving in the documented format and loading gives the same history when indices are in bounds and contents are terminator-free |
| QueryHistory.AsWrittenLineDropped | app/src/main/java/com/pierbezuhoff/define/data/Query.kt:50 | a shipped line whose index character is neither an ASCII digit nor a line terminator (every index in 0..47 other than 10 and 13, among others) never decodes |
| QueryHistory.AsWrittenHistoryIsLost | app/src/main/java/com/pierbezuhoff/define/data/Query.kt:49-54 | saving with the shipped writer and loading yields an empty history when every index is in 0..47 (other than 10, 13) and no content holds a line terminator |
| QueryHistory.AsWrittenCounterexample | app/src/main/java/com/pierbezuhoff/define/data/Query.kt:50 | `[Query(0, "cat")]` reads back as `[]` from the shipped writer but as itself from the documented format |
| QueryVariants.MakeQueryVariant | app/src/main/java/com/pierbezuhoff/define/data/QueryVariant.kt:12-16 | construction succeeds exactly when the template contains `$`, keeping template and color; otherwise it fails |
| QueryVariants.QueryVariant.Render | app/src/main/java/com/pierbezuhoff/define/data/QueryVariant.kt:18-20 | `render` output is `|t| + count($)·(|c| − 1)` long, and content without `$` leaves no `$` |
| QueryVariants.Replace | app/src/main/java/com/pierbezuhoff/define/data/QueryVariant.kt:18-20 | the rendered length is `|t| + count($)·(|c| − 1)` |
| QueryVariants.ReplaceAppend | app/src/main/java/com/pierbezuhoff/define/data/QueryVariant.kt:19 | rendering distributes over concatenation of templates |
| QueryVariants.ReplaceChar | app/src/main/java/com/pierbezuhoff/define/data/QueryVariant.kt:19 | a `$` renders as the content; any other character renders as itself |
| QueryVariants.RenderPlaceholderIsIdentity | app/src/main/java/com/pierbezuhoff/define/data/QueryVariant.kt:19 | rendering a variant with `"$"` returns its template unchanged |
| QueryVariants.ReplaceWithoutPlaceholder | app/src/main/java/com/pierbezuhoff/define/data/QueryVariant.kt:19 | a template without `$` renders to itself |
| QueryVariants.ReplaceLeavesNoPlaceholder | app/src/main/java/com/pierbezuhoff/define/data/QueryVariant.kt:19 | every `$` is replaced: content without `$` leaves none in the result |
| QueryVariants.RenderSinglePlaceholder | app/src/main/java/com/pierbezuhoff/define/data/QueryVariant.kt:19 | a variant whose template has a single `$` renders to the surrounding text with the content in between |
| QueryVariants.GoogleDefineIsValid | app/src/main/java/com/pierbezuhoff/define/data/QueryVariant.kt:23-27 | `GOOGLE_DEFINE` passes the constructor check, and so `DEFAULT` is valid |
| QueryVariants.DecodeLine | app/src/main/java/com/pierbezuhoff/define/data/QueryVariant.kt:42-51 | a kept variant is valid and its template is shorter than the line |
| QueryVariants.DecodeLines | app/src/main/java/com/pierbezuhoff/define/data/QueryVariant.kt:37-52 | on success the list is no longer than the input and all valid; the load fails iff some line's constructor throws |
| QueryVariants.LoadQueryVariantsFile | app/src/main/java/com/pierbezuhoff/define/data/QueryVariant.kt:33-56 | the load fails exactly when the file is missing or some line's constructor throws; a successful load holds only valid variants |
| QueryVariants.ValidIsNotBlank | app/src/main/java/com/pierbezuhoff/define/data/QueryVariant.kt:48 | a template with `$` is never blank |
| QueryVariants.DecodeLineWithoutSpace | app/src/main/java/com/pierbezuhoff/define/data/QueryVariant.kt:44-45 | a line without a space is dropped |
| QueryVariants.DecodeLineSplitsAtFirstSpace | app/src/main/java/com/pierbezuhoff/define/data/QueryVariant.kt:43-50 | for a line with a space: dropped on a bad color or blank template; otherwise kept with the whole remainder as template if it has `$`, else the load fails |
| QueryVariants.DecodeLinesAppend | app/src/main/java/com/pierbezuhoff/define/data/QueryVariant.kt:42-51 | decoding splits over concatenation: the first failure in input order decides a failed load, otherwise the kept variants of both parts are joined in input order |
| QueryVariants.DecodeLinesStep | app/src/main/java/com/pierbezuhoff/define/data/QueryVariant.kt:42-51 | a dropped line adds nothing and a kept line adds its variant in front of the rest |
| QueryVariants.MissingPlaceholderFailsLoad | app/src/main/java/com/pierbezuhoff/define/data/QueryVariant.kt:37-51 | one non-blank template without `$` fails the whole load, whatever the other lines |
| QueryVariants.EncodeLine | app/src/main/java/com/pierbezuhoff/define/data/QueryVariant.kt:67-71 | in the written line, the first space follows the unsigned decimal color and the template is the whole remainder |
| QueryVariants.EncodeLineRoundTrip | app/src/main/java/com/pierbezuhoff/define/data/QueryVariant.kt:67-71 | the written line of a valid variant decodes to that variant |
| QueryVariants.DecodeEncodedLines | app/src/main/java/com/pierbezuhoff/define/data/QueryVariant.kt:42-51 | decoding the written lines of valid variants gives the list back in order |
| QueryVariants.SaveQueryVariantsFile | app/src/main/java/com/pierbezuhoff/define/data/QueryVariant.kt:58-74 | saving replaces only the variants file, which starts with the first color in unsigned decimal and a space |
| QueryVariants.VariantsRoundTrip | app/src/main/java/com/pierbezuhoff/define/data/QueryVariant.kt:58-74 | saving valid, terminator-free variants and loading gives the same list in order |
| ViewModel.LoadInitialDataFromDisk | app/src/main/java/com/pierbezuhoff/define/ui/DefineViewModel.kt:30-38 | loading always leaves the flag set; no change once done; a successful variants load replaces the list and a failed one keeps it; a missing history file keeps the history; loaded history is in bounds of the variants after the load |
| ViewModel.PersistDataToDisk | app/src/main/java/com/pierbezuhoff/define/ui/DefineViewModel.kt:40-43 | persisting writes exactly the two named files and keeps every other file; the history file holds three characters per query besides the contents and starts with the first index's character and a space (`PersistThenLoadReadsShippedLines` fixes what reloads from it) |
| ViewModel.PersistDataToDiskCorrected | app/src/main/java/com/pierbezuhoff/define/ui/DefineViewModel.kt:40-43 | the corrected persist also writes exactly the two named files |
| ViewModel.CreateNewQueryVariant | app/src/main/java/com/pierbezuhoff/define/ui/DefineViewModel.kt:46-48 | appends: one longer, old prefix kept, last is the new variant, history untouched |
| ViewModel.RecordNewQuery | app/src/main/java/com/pierbezuhoff/define/ui/DefineViewModel.kt:50-53 | prepends unconditionally: one longer, new head, old history as tail, variants untouched |
| ViewModel.InitialState | app/src/main/java/com/pierbezuhoff/define/ui/DefineViewModel.kt:21-26 | initially `[DEFAULT]`, empty history, not loaded, variants valid |
| ViewModel.LoadAtMostOnce | app/src/main/java/com/pierbezuhoff/define/ui/DefineViewModel.kt:31-36 | a second load from any disk changes nothing |
| ViewModel.HistoryUsesCountAfterVariantsStep | app/src/main/java/com/pierbezuhoff/define/ui/DefineViewModel.kt:32-35 | history is decoded against the freshly loaded variant count on success, else the previous count |
| ViewModel.FirstInstallKeepsDefaults | app/src/main/java/com/pierbezuhoff/define/ui/DefineViewModel.kt:32-36 | with no files, loading keeps the defaults and only sets the flag |
| ViewModel.OperationsKeepVariantsValid | app/src/main/java/com/pierbezuhoff/define/ui/DefineViewModel.kt:30-53 | load, create (with a constructed variant) and record keep every variant valid |
| ViewModel.RecordDoesNotDeduplicate | app/src/main/java/com/pierbezuhoff/define/ui/DefineViewModel.kt:50-53 | recording the same query twice keeps both copies |
| ViewModel.PersistThenLoadRestoresVariants | app/src/main/java/com/pierbezuhoff/define/ui/DefineViewModel.kt:40-43 | persist then load into a fresh view model restores the variant list when every variant is valid and no template holds a line terminator |
| ViewModel.PersistThenLoadLosesHistory | app/src/main/java/com/pierbezuhoff/define/ui/DefineViewModel.kt:42 | with the shipped writer, persist then load gives an empty history when every index is in 0..9 and no content holds a line terminator |
| ViewModel.PersistThenLoadReadsShippedLines | app/src/main/java/com/pierbezuhoff/define/ui/DefineViewModel.kt:32-42 | with the shipped writer, persist then load gives exactly the history decoded from the shipped lines (index character, space, content) against the reloaded variant count, when no index character or content is a line terminator |
| ViewModel.PersistCorrectedThenLoadRestoresState | app/src/main/java/com/pierbezuhoff/define/ui/DefineViewModel.kt:40-43 | with the corrected writer, persist then load restores both lists |
| ViewModel.CreatePersistLoadScenario | app/src/main/java/com/pierbezuhoff/define/ui/DefineViewModel.kt:46-48 | create X, persist, load into a fresh view model: the variants are `[DEFAULT, X]` |

## Left out

- Android I/O: `Context`, buffered readers and writers, `printStackTrace` and the UTF-8 byte layer. The model works on file text.
- Write failures: `persistDataToDisk` ignores the `Result` of both saves, and a failed or partial write is not modelled.
- Non-ASCII decimal digits: the JVM's `toIntOrNull`/`toULongOrNull` also accept other Unicode decimal digits, but the model accepts ASCII digits only.
- Color packing and float channels: a `Color` is its opaque 64-bit value.
- Compose observable state (`mutableStateOf`) and the `ViewModelProvider.Factory`: these are plain fields and no factory here.
- UI screens, the color picker, `MainActivity` and custom tabs: these are presentation, not the data layer.
- Operations named only by the UI drafts (`deleteQueryAt`, `updateQueryVariantAt`, `updateQueryVariants`, `selectedQueryVariant`): they do not exist in the view model.
- Unpaired surrogates: Kotlin strings are UTF-16, but a Dafny string holds Unicode scalar values, so content or a template with a lone surrogate cannot be represented. The UTF-8 writer turns such a character into `?`, so the source's round trip fails for it. `HistoryRoundTrip`, `VariantsRoundTrip` and the persist-then-load lemmas hold only for well-formed text; only the index character of the shipped history writer models the `?` replacement.
- Concurrency: the code has none (loading is marked TODO). No guard beyond `fileLoadingIsDone` is modelled.

## Findings

| source | as written | input that shows it | evidently intended | confidence | as-written member | corrected member |
|---|---|---|---|---|---|---|
| app/src/main/java/com/pierbezuhoff/define/data/Query.kt:50 | `it.write(query.queryVariantIndex)` writes one character whose code is the index | `[Query(0, "cat")]` is saved as `"\u0000 cat\n"` and loads back as `[]` | write the index in decimal, as the format comment at lines 10-12 and the decoder at line 27 expect | high (proved in the model, not executed) | QueryHistory.AsWrittenCounterexample | QueryHistory.HistoryRoundTrip |
| app/src/main/java/com/pierbezuhoff/define/data/Query.kt:50 | the same one-character index: indices 48 to 57 are written as the digits `0` to `9` | `Query(49, "x")` with 50 variants is saved as `"1 x"` and reads back as `Query(1, "x")` | write the index in decimal, so the lookup keeps its variant | high (proved in the model, not executed) | QueryHistory.AsWrittenCorruptionExample | QueryHistory.EncodeLineRoundTrip |
