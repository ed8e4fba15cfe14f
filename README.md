# Data cleaning demo — a Dafny model

This project models the deterministic logic of a React demo that uploads a data
file, cleans it, and compares the result with the original. It also includes the
demo's text-file error finder. The model follows the components one module at a
time:

- `Ingest` (`src/pages/Index.tsx`) covers three things:
  - the naive CSV reader `parseCSV`, written as a loop method proved against a
    specification function;
  - the per-line fallback records;
  - the choice of reader by file name, and the page state that an upload and a
    finished cleaning run update (a `Page` class).
- `TablePreview` (`src/components/DataTablePreview.tsx`) covers:
  - CSV export with quoting in the manner of section 2 of RFC 4180;
  - the first-match lookup of a ledger entry for a cell, and the cell class it
    selects;
  - the download file name;
  - the per-kind badges.
- `RoundTrip` proves that reading back an exported table gives the table, for
  plain-text tables.
- `Cleaning` (`src/components/DataCleaningPipeline.tsx`) covers the six-step
  cleaning run:
  - step 0 fixes typos, step 1 normalises labels, step 2 fills missing values,
    and step 4 may append one synthetic record;
  - every change is logged in a ledger of `CleaningResult` entries;
  - the run is a `CleaningPipeline` class whose loop methods are proved against
    the functions `RowPass`, `StepPass`, `Step` and `Pipeline`.
- `ComparisonSlider` (`src/components/DataComparisonSlider.tsx`) covers:
  - the quality scores and the improvement badge;
  - which records and which ledger the slider passes on;
  - the per-kind summary `reduce`.
- `ErrorDetection` (`src/components/ErrorDetection.tsx`) covers the three mock
  errors, the line repair, and the detector's flags (an `ErrorDetector` class).
- `FileComparison` and `FilePreview` (`src/components/FileComparison.tsx`,
  `src/components/FilePreview.tsx`) cover which lines are marked, the panes a
  slider value shows, and the error-count text.

The modules share two supporting modules.

- `Text` models the JavaScript string built-ins the components call, over
  `seq<char>`:
  - `split`/`join` with one separator;
  - `trim`/`trimEnd`;
  - a global literal `replace`;
  - `includes`, `endsWith` and `toLowerCase`.
- `Records` models a `DataRow` as a JavaScript object:
  - an object is its keys in insertion order plus a map;
  - assigning a new key appends it, and assigning an existing key keeps its place;
  - a missing key reads as `undefined`.

Randomness and the clock are parameters:

- `gate(step, row, key)` stands for each field's `Math.random()` draw;
- `augment` stands for the draw of step 4;
- `stamp` stands for `Date.now()`;
- `flags(k)` stands for the fallback's `hasError` draw.

Confidences are in thousandths (0.95 is 950). Progress is a count of finished
steps.

The records handed to the cleaning run are values, so the run cannot change the
caller's array. The source's copy-before-write discipline holds by construction.

Two details of the code matter for what the model states:

- **Cell lookup.** The lookup is the FIRST ledger entry with the cell's field
  name (`Array.find`), not the last. The row is never consulted.
- **CSV cells.** Each cell is trimmed before its quotes are removed, so padding
  inside quotes survives (`QuotedPaddingSurvives`).

## Model

| member | source | states |
|---|---|---|
| Ingest.Cells | src/pages/Index.tsx:64 | one cell per comma-separated piece of the line, each trimmed and stripped of `"` |
| Ingest.CsvRecords | src/pages/Index.tsx:60-79 | what `parseCSV` returns: no records without a data line, else one per data line; contents in `CsvRecordsShape` and `CsvRecordFields` |
| Ingest.CsvRow | src/pages/Index.tsx:68-73 | the record of one data line: `{id: row_<i>}` then one assignment per header; keys and values stated by `CsvRowKeys` and `CsvRowValues` |
| Ingest.CsvRecordsShape | src/pages/Index.tsx:61-75 | fewer than two trimmed lines give no records; otherwise exactly one record per data line, in line order, record i read from line i+1 |
| Ingest.ReadRow | src/pages/Index.tsx:68-75 | the loop over the headers builds exactly the specified record for the line |
| Ingest.ReadRows | src/pages/Index.tsx:67-76 | the loop over data lines yields the specified records, in order |
| Ingest.ParseCsv | src/pages/Index.tsx:60-79 | `parseCSV` returns exactly the specified record sequence |
| Ingest.AssignedKeys | src/pages/Index.tsx:71-73 | the header loop keeps the starting keys in front, and the keys afterwards are the starting keys plus the headers |
| Ingest.AssignedUntouched | src/pages/Index.tsx:71-73 | a key no header names keeps its starting value |
| Ingest.AssignedLastWrite | src/pages/Index.tsx:71-73 | a repeated header holds the value from the column of its last occurrence |
| Ingest.CsvRowKeys | src/pages/Index.tsx:69-73 | a read record is well formed, `id` is its first key, and its keys are exactly `id` and the headers |
| Ingest.CsvRowValues | src/pages/Index.tsx:69-73 | the id is `row_<i>` unless a header named `id` overwrites it; each header holds the cell in the column of its last occurrence, or `''` when that cell is missing or empty |
| Ingest.CsvRecordFields | src/pages/Index.tsx:64-75 | the key and value facts above hold for every record `parseCSV` returns, with id `row_<i+1>` for record i |
| Ingest.CleanCell | src/pages/Index.tsx:68 | `trim` then drop every `"`: a cleaned cell never holds `"`; `QuotedPaddingSurvives` shows the order of the two |
| Ingest.CellsQuoteFree | src/pages/Index.tsx:64 | no header cell and no value cell holds `"` |
| Ingest.CsvRecordQuoteFree | src/pages/Index.tsx:64-73 | every key and every value of every record is a string free of `"` |
| Ingest.QuotedPaddingSurvives | src/pages/Index.tsx:68 | the cell `" a "` reads as ` a `: trimming comes before quote removal |
| Ingest.SampleRow | src/pages/Index.tsx:84-90 | the fallback record of one line, its five fields stated by `SampleRowFields` |
| Ingest.SampleRowFields | src/pages/Index.tsx:84-90 | a fallback record has id `row_<k+1>`, content that is a prefix of the line of at most 100 characters, lineNumber k+1, the full line length, and hasError `Yes` or `No` |
| Ingest.SampleRecords | src/pages/Index.tsx:83-90 | min(10, line count) records, record k built from line k |
| Ingest.SampleRecordsCount | src/pages/Index.tsx:83 | the fallback yields between 1 and 10 records |
| Ingest.FormatOf | src/pages/Index.tsx:41-48 | `.csv` wins over `.json`; each reader is chosen exactly when its suffix test passes |
| Ingest.ParseUpload | src/pages/Index.tsx:40-52 | `.csv` goes to the CSV reader; `.json` goes to `JSON.parse`; any other name, or a parse that throws, goes to the fallback |
| Ingest.Page.constructor | src/pages/Index.tsx:25-29 | no upload, no records, no ledger, no comparison |
| Ingest.Page.HandleFileUpload | src/pages/Index.tsx:35-58 | stores the upload and its records; resets the cleaned records, the ledger and the comparison flag, so the comparison is hidden |
| Ingest.Page.HandleCleaningComplete | src/pages/Index.tsx:93-97 | stores the run's records and ledger and turns the comparison on; the upload and original records stay; a non-empty run over a shown workspace shows the comparison |
| Ingest.Page.ShowsWorkspace | src/pages/Index.tsx:119 | the preview and the pipeline show exactly when a file is loaded and it gave records |
| Ingest.Page.ShowsComparison | src/pages/Index.tsx:135 | the comparison shows exactly when the workspace shows, the flag is on and the cleaned records are non-empty; `ImprovementOnPage` uses it |
| Records.Row.Set | src/pages/Index.tsx:72 | assignment: the key reads the new value, other keys are unchanged, and a new key goes last |
| Records.CountOf | src/components/DataTablePreview.tsx:133 | the count of entries of a kind is zero exactly when no entry has that kind |
| Records.DistinctKinds | src/components/DataTablePreview.tsx:131 | `new Set(types)`: each kind present exactly once, and no kind that is absent |
| Records.CountsPartition | src/components/DataTablePreview.tsx:131-133 | the per-kind counts of the distinct kinds add up to the ledger length |
| TablePreview.UndoubleDouble | src/components/DataTablePreview.tsx:60 | undoing doubled quotes gives back the text before doubling |
| TablePreview.CsvField | src/components/DataTablePreview.tsx:56-62 | one exported cell; its quoting and read-back stated by `CsvFieldEscapes` and `PlainFields` |
| TablePreview.CsvFieldEscapes | src/components/DataTablePreview.tsx:59-62 | a string with `,` or `"` is written between quotes with each `"` doubled, and an RFC 4180 reader reads it back; any other value is written as `Array.join` renders it |
| TablePreview.CsvFields | src/components/DataTablePreview.tsx:56-63 | one field per column, each the escaped value of the row at that column |
| TablePreview.CsvBody | src/components/DataTablePreview.tsx:55-64 | one line per record, in order |
| TablePreview.ToCsv | src/components/DataTablePreview.tsx:50-51 | the empty table exports as the empty text |
| TablePreview.ToCsvLines | src/components/DataTablePreview.tsx:53-66 | without line breaks in cells, the export splits into the header line plus exactly one line per record, in order |
| TablePreview.ToCsvColumns | src/components/DataTablePreview.tsx:53-63 | every line has one cell per key of the first record; a column the record lacks gives an empty cell |
| TablePreview.FindResult | src/components/DataTablePreview.tsx:69-71 | none exactly when no entry has the field; otherwise the first entry with that field, whatever the row |
| TablePreview.ClassOf | src/components/DataTablePreview.tsx:77-83 | only `duplicate` maps to no class |
| TablePreview.ClassOfInjective | src/components/DataTablePreview.tsx:77-83 | the four highlighted kinds map to four distinct classes |
| TablePreview.CellClassName | src/components/DataTablePreview.tsx:73-84 | a field with no entry gets no class |
| TablePreview.CellClassPerColumn | src/components/DataTablePreview.tsx:69-75 | every row's cell in a column gets the class of the column's first entry |
| TablePreview.UnderscoreRuns | src/components/DataTablePreview.tsx:38 | the result holds no whitespace and is no longer than the input |
| TablePreview.UnderscoreRunsNoWhitespace | src/components/DataTablePreview.tsx:38 | text without whitespace is unchanged |
| TablePreview.UnderscoreRunsAppend | src/components/DataTablePreview.tsx:38 | a whitespace-free prefix is kept in front of the rendering of the rest |
| TablePreview.UnderscoreRunsRun | src/components/DataTablePreview.tsx:38 | a whole whitespace run becomes a single `_` |
| TablePreview.LowerStaysLower | src/components/DataTablePreview.tsx:38 | replacing whitespace introduces no upper-case letter |
| TablePreview.DownloadName | src/components/DataTablePreview.tsx:38 | the name ends in `.csv` and holds neither whitespace nor upper-case letters |
| TablePreview.DownloadNameOfPlainTitle | src/components/DataTablePreview.tsx:38 | a lower-case title without whitespace gives the title plus `.csv` |
| TablePreview.Badges | src/components/DataTablePreview.tsx:131-133 | one badge per distinct kind, in the order of `new Set`, each counting the entries of its kind |
| TablePreview.BadgesCoverKinds | src/components/DataTablePreview.tsx:131-133 | there is a badge for every kind present and for no other |
| TablePreview.BadgesCountAll | src/components/DataTablePreview.tsx:131-133 | every badge counts at least one entry, and the badges together count every entry once |
| RoundTrip.PlainFields | src/components/DataTablePreview.tsx:59-62 | plain text is exported unquoted and unchanged |
| RoundTrip.CellsOfPlain | src/pages/Index.tsx:68 | the reader splits a comma-joined line of plain cells back into those cells |
| RoundTrip.PlainLine | src/components/DataTablePreview.tsx:63 | a joined line of plain cells is non-empty, has no line break and no surrounding whitespace |
| RoundTrip.AssignedKeysInOrder | src/pages/Index.tsx:71-73 | with distinct headers starting with `id`, the record's keys are the headers in order |
| RoundTrip.ReadPlainLine | src/pages/Index.tsx:68-73 | a line of plain cells under distinct headers reads as a record mapping each header to its cell |
| RoundTrip.RowRoundTrip | src/pages/Index.tsx:67-75 | reading a plain row's exported line gives the row |
| RoundTrip.ReadJoinedLines | src/pages/Index.tsx:61 | trimmed, non-empty lines joined with line breaks split back into those lines |
| RoundTrip.PlainRowLine | src/components/DataTablePreview.tsx:55-63 | a plain row's exported line is non-empty, has no line break and no surrounding whitespace |
| RoundTrip.ExportLines | src/components/DataTablePreview.tsx:66 | the reader splits a plain table's export into the header line and the record lines |
| RoundTrip.ExportShape | src/components/DataTablePreview.tsx:53-66 | the export of a plain table reads as its columns, then one line per row |
| RoundTrip.ExportedRecord | src/components/DataTablePreview.tsx:50-67 | reading the export gives one record per row, the i-th being the i-th row |
| RoundTrip.ExportThenParse | src/components/DataTablePreview.tsx:50-67 | `parseCSV(convertToCSV(rows)) == rows` for every plain table and for the empty table |
| Cleaning.TypoFix | src/components/DataCleaningPipeline.tsx:63 | the two global replacements in order; text without either misspelling is kept (`TypoFixOfCleanText`) |
| Cleaning.TypoFixOfCleanText | src/components/DataCleaningPipeline.tsx:63-64 | text without `teh` or `recieve` is left alone, so step 0 logs nothing for it |
| Cleaning.NormalizeLabel | src/components/DataCleaningPipeline.tsx:86-97 | on the lower-cased value: `no`/`false` gives `No`; otherwise `yes`/`true` gives `Yes`; otherwise `male` gives `Female` if `fe` occurs, else `Male`; otherwise the value is kept |
| Cleaning.FillValue | src/components/DataCleaningPipeline.tsx:121-126 | on the lower-cased key: `status` gives `Active`; otherwise `score` gives `0`; otherwise `age` gives `25`; otherwise `Unknown` |
| Cleaning.FieldEdit | src/components/DataCleaningPipeline.tsx:60-135 | an edit happens only when its draw fires in steps 0 to 2 and it changes the value, and its entry names the field with the step's kind and confidence; conversely a fired draw on a misspelt string, on a label the label test rewrites, or on a null, undefined or empty field makes exactly the rule's edit and entry |
| Cleaning.RowPass | src/components/DataCleaningPipeline.tsx:58-76 | a step keeps a record's keys, and logs no more entries than the keys it has visited |
| Cleaning.StepPass | src/components/DataCleaningPipeline.tsx:58-77 | the mapped records, one per record, in order, each the record after the step; its ledger holds exactly the records' logs (`StepLogSource`, `StepLogComplete`) |
| Cleaning.Prefixed | src/components/DataCleaningPipeline.tsx:144-149 | prefixing keeps the keys |
| Cleaning.Step | src/components/DataCleaningPipeline.tsx:56-163 | one pass of the `switch`; its three cases stated by `StepCases` |
| Cleaning.Pipeline | src/components/DataCleaningPipeline.tsx:46-166 | the six steps in order from the input records and an empty ledger; stated by `PipelineStages`, `PipelineRecords` and `PipelineLedger` |
| Cleaning.StepCases | src/components/DataCleaningPipeline.tsx:56-163 | steps 0 to 2 keep the count of records and only append to the ledger; step 4 with its draw appends the synthetic record and its entry; every other step changes nothing |
| Cleaning.CleanRow | src/components/DataCleaningPipeline.tsx:59-76 | the `forEach` over the keys builds exactly the specified record and log |
| Cleaning.CleanRows | src/components/DataCleaningPipeline.tsx:58-77 | the `map` over the records builds exactly the specified records and log |
| Cleaning.MakeSynthetic | src/components/DataCleaningPipeline.tsx:144-150 | the loop builds exactly the specified synthetic record |
| Cleaning.RunStep | src/components/DataCleaningPipeline.tsx:56-163 | one pass of the `switch` yields exactly the specified step |
| Cleaning.CleaningPipeline.constructor | src/components/DataCleaningPipeline.tsx:28-30 | not processing, no progress, no step shown |
| Cleaning.CleaningPipeline.SimulateDataCleaning | src/components/DataCleaningPipeline.tsx:42-169 | hands over exactly the specified run; progress passes through 0, 1, …, 6 in order and ends at 6, with processing off and the step line reading completed |
| Cleaning.ProgressTrace | src/components/DataCleaningPipeline.tsx:165 | progress is 0 and then i+1 after step i: strictly increasing, complete only at the end |
| Cleaning.RowPassValid | src/components/DataCleaningPipeline.tsx:59-76 | a step keeps a record well formed |
| Cleaning.RowPassGet | src/components/DataCleaningPipeline.tsx:59-76 | a visited field holds its edit's value, read from the record as it was before the step; the other fields keep theirs |
| Cleaning.RowPassLogged | src/components/DataCleaningPipeline.tsx:64-73 | every edit made has its entry in the log |
| Cleaning.RowPassLogSource | src/components/DataCleaningPipeline.tsx:64-73 | every log entry comes from an edit made |
| Cleaning.ChangedIffLogged | src/components/DataCleaningPipeline.tsx:64-73 | a field changes if and only if an entry is logged for it, and that entry carries the new value |
| Cleaning.RowPassFieldsDistinct | src/components/DataCleaningPipeline.tsx:60-72 | in a well-formed record each key is visited once, so no two entries of a record's log name the same field |
| Cleaning.TypoStep | src/components/DataCleaningPipeline.tsx:61-73 | only strings with a misspelling change, to their fixed text; every entry is `{typo, key, before, after, 950}` with the fixed text different from the original; a misspelt string whose draw fires is corrected and logged |
| Cleaning.NormalizeStep | src/components/DataCleaningPipeline.tsx:86-107 | only strings whose label test gives another text change, to that text; every entry is `{inconsistent, key, before, after, 880}`; a string whose draw fires and whose label test gives another text is rewritten and logged |
| Cleaning.FillStep | src/components/DataCleaningPipeline.tsx:119-135 | only null, undefined or empty fields change, to their fill; every fill is logged with `NULL` before and 750; a missing field whose draw fires is filled, is no longer missing, and is logged |
| Cleaning.PrefixedValid | src/components/DataCleaningPipeline.tsx:144-149 | prefixing keeps a record well formed |
| Cleaning.PrefixedGet | src/components/DataCleaningPipeline.tsx:144-149 | every visited field except `id` holds `synthetic_` plus its old text; the rest are unchanged |
| Cleaning.Synthetic | src/components/DataCleaningPipeline.tsx:144-150 | the spread copy of the first record with prefixed values and a stamped id, stated by `SyntheticRecord` |
| Cleaning.SyntheticRecord | src/components/DataCleaningPipeline.tsx:143-150 | the synthetic record is well formed; it has the first record's keys (plus `id` if missing); every non-id field is `synthetic_<value>`; the id is `synthetic_<stamp>` |
| Cleaning.StepKeepsShape | src/components/DataCleaningPipeline.tsx:56-140 | steps 0 to 2 keep the number, order, keys and well-formedness of the records |
| Cleaning.StepKeepsKeys | src/components/DataCleaningPipeline.tsx:56-140 | steps 0 to 2 keep the number of records and each record's keys |
| Cleaning.StepLogSource | src/components/DataCleaningPipeline.tsx:58-77 | every entry a step logs comes from one of the records it mapped |
| Cleaning.StepLogComplete | src/components/DataCleaningPipeline.tsx:58-77 | conversely, every entry a record logs reaches the step's ledger |
| Cleaning.StepChangesLogged | src/components/DataCleaningPipeline.tsx:60-73 | every field a step changes in a well-formed record has its edit's entry in the step's ledger |
| Cleaning.RowLogEntries | src/components/DataCleaningPipeline.tsx:65-67 | a record's entries carry the step's kind and confidence and name one of its keys |
| Cleaning.StepLogEntries | src/components/DataCleaningPipeline.tsx:58-140 | every entry of steps 0 to 2 carries the step's kind and confidence and names a key of some record |
| Cleaning.CleaningStepAt | src/components/DataCleaningPipeline.tsx:56-140 | steps 0 to 2 map the records and append their log |
| Cleaning.QuietStepAt | src/components/DataCleaningPipeline.tsx:56-163 | steps 3 and 5, and step 4 without its draw, change nothing |
| Cleaning.AugmentStepAt | src/components/DataCleaningPipeline.tsx:142-162 | step 4 with its draw appends the synthetic record and one augmentation entry |
| Cleaning.PipelineStages | src/components/DataCleaningPipeline.tsx:47-163 | the whole run is steps 0, 1 and 2 over the records, then the optional synthetic record |
| Cleaning.PipelineRecords | src/components/DataCleaningPipeline.tsx:47-163 | the output has n or n+1 records; the first n keep their order, keys and well-formedness; the extra one is the synthetic copy of the first cleaned record |
| Cleaning.StepEntriesFromInput | src/components/DataCleaningPipeline.tsx:58-140 | a step's entries name a key of an input record |
| Cleaning.LedgerLayout | src/components/DataCleaningPipeline.tsx:65-154 | laid end to end, the index range of each part keeps its kind |
| Cleaning.PipelineLedger | src/components/DataCleaningPipeline.tsx:46-160 | the ledger is the typo entries, then the label entries, then the fill entries, then at most one augmentation entry; every entry has its kind's confidence and names an input key or `entire_row` |
| Cleaning.PipelineChangesLogged | src/components/DataCleaningPipeline.tsx:46-176 | every field changed by step 0, 1 or 2 in a well-formed record has its edit's entry in the ledger handed to `onCleaningComplete` |
| ComparisonSlider.QualityScore | src/components/DataComparisonSlider.tsx:39-55 | empty data scores 0; otherwise 70 without results, and between 70 and 95 with them |
| ComparisonSlider.CleanedQualityCurve | src/components/DataComparisonSlider.tsx:45-52 | the cleaned score is 70 + 2·n up to 12 entries and 95 from 13 on, so the cap of 30 added points is never reached |
| ComparisonSlider.QualityMonotone | src/components/DataComparisonSlider.tsx:46-51 | the cleaned score does not fall as the ledger grows |
| ComparisonSlider.Improvement | src/components/DataComparisonSlider.tsx:87 | the `+N%` badge, bounded by `ImprovementBounds`, `ImprovementAfterCleaning` and `ImprovementOnPage` |
| ComparisonSlider.ImprovementBounds | src/components/DataComparisonSlider.tsx:87 | with both sides non-empty the badge lies between 0 and 25 |
| ComparisonSlider.ImprovementAfterCleaning | src/components/DataComparisonSlider.tsx:57-58 | for the output of a cleaning run over the uploaded records the badge is never negative |
| ComparisonSlider.ImprovementOnPage | src/pages/Index.tsx:135 | whenever the page shows the comparison, the badge lies between 0 and 25 |
| ComparisonSlider.CurrentData | src/components/DataComparisonSlider.tsx:31-33 | slider 0 shows the original records; any other value shows the cleaned ones |
| ComparisonSlider.CurrentResults | src/components/DataComparisonSlider.tsx:35-37 | the ledger is passed only at exactly 100; otherwise the empty list |
| ComparisonSlider.MiddleOfSlider | src/components/DataComparisonSlider.tsx:31-37 | strictly between the ends, the cleaned records are shown without highlighting |
| ComparisonSlider.ViewLabel | src/components/DataComparisonSlider.tsx:107 | `Original` at 0, `Cleaned` at 100, and a longer `…% Cleaned` text in between |
| ComparisonSlider.Summary | src/components/DataComparisonSlider.tsx:121-125 | the accumulator's keys are exactly the kinds it lists |
| ComparisonSlider.SummaryCounts | src/components/DataComparisonSlider.tsx:121-125 | the summary lists the same distinct kinds, in the same order, as the badges' `new Set`, each with its number of entries |
| ComparisonSlider.SummaryTotalIsSum | src/components/DataComparisonSlider.tsx:126-131 | the total over the listed cards is the sum of the per-kind counts |
| ComparisonSlider.SummaryAddsUp | src/components/DataComparisonSlider.tsx:121-131 | the cards show exactly the kinds present, each count is at least 1, and the counts sum to the ledger length |
| ErrorDetection.MockErrorLines | src/components/ErrorDetection.tsx:37-56 | detection reports three errors, on lines 3, 7 and 12 |
| ErrorDetection.FixLine | src/components/ErrorDetection.tsx:78-84 | only positions 2, 6 and 11 change: 2 gains one `,`; 6 loses exactly its trailing whitespace; on 11 every `'` becomes `"` in place and every other character stays; no line break is introduced |
| ErrorDetection.TrimEndOf | src/components/ErrorDetection.tsx:81 | a prefix of the line that ends in non-whitespace, with only whitespace cut off |
| ErrorDetection.QuotesFixed | src/components/ErrorDetection.tsx:82 | each position holding `'` holds `"` afterwards and every other position is unchanged, so no `'` is left and the length is kept |
| ErrorDetection.FixContent | src/components/ErrorDetection.tsx:76-85 | split, repair each line, join; its lines stated by `FixedContentLines` and `FixKeepsOtherLines` |
| ErrorDetection.FixedLines | src/components/ErrorDetection.tsx:78-84 | one repaired line per line, in order |
| ErrorDetection.FixedContentLines | src/components/ErrorDetection.tsx:76-85 | splitting the corrected text gives the repaired lines |
| ErrorDetection.FixKeepsOtherLines | src/components/ErrorDetection.tsx:76-85 | the line count is kept, and every line other than 2, 6 and 11 is identical |
| ErrorDetection.ShortContentUnchanged | src/components/ErrorDetection.tsx:76-85 | text with fewer than three lines comes back unchanged |
| ErrorDetection.TrimLineIdempotent | src/components/ErrorDetection.tsx:81 | repairing line 6 twice is the same as once |
| ErrorDetection.ChangedLinesReported | src/components/ErrorDetection.tsx:39-82 | every position the repair changes is `error.line - 1` for some reported error |
| ErrorDetection.CorrectedName | src/components/ErrorDetection.tsx:105 | `corrected_` followed by the file name |
| ErrorDetection.ErrorDetector.constructor | src/components/ErrorDetection.tsx:25-29 | no errors, nothing fixed, both flags off |
| ErrorDetection.ErrorDetector.DetectErrors | src/components/ErrorDetection.tsx:58-59 | errors become the reported ones and Resolve becomes available, whatever the previous state; the fix state and the fixed flag are untouched |
| ErrorDetection.ErrorDetector.FixErrors | src/components/ErrorDetection.tsx:76-89 | only when Resolve shows (guard at line 140): stores the corrected text and a copy of the errors; Download becomes available; no flag is reset |
| ErrorDetection.ErrorDetector.CanResolve | src/components/ErrorDetection.tsx:140 | the Resolve button shows exactly when detection ran and found errors |
| ErrorDetection.ErrorDetector.CanDownload | src/components/ErrorDetection.tsx:152 | the Download button shows exactly when a fix was made |
| ErrorDetection.ErrorDetector.DownloadCorrectedFile | src/components/ErrorDetection.tsx:100-105 | only when Download shows (guard at line 152): the name is `corrected_<fileName>` and the body is the corrected text |
| FileComparison.ChangedLines | src/components/FileComparison.tsx:28-32 | the set of `error.line - 1`; the loop of `GetChangedLines` is proved to build it |
| FileComparison.GetChangedLines | src/components/FileComparison.tsx:28-32 | the loop collects exactly the set { e.line − 1 } over the errors |
| FileComparison.ViewFor | src/components/FileComparison.tsx:37-87 | at most 25 shows the original only, at least 75 the corrected only, anything else both, each if and only if |
| FileComparison.Pane | src/components/FileComparison.tsx:47-57 | one row per line, numbered from 1, marked if and only if its position is changed |
| FileComparison.Screen | src/components/FileComparison.tsx:36-135 | the panes of the chosen view, original before corrected |
| FileComparison.HighlightsAreErrorLines | src/components/FileComparison.tsx:30-50 | a marked row is a line some error names; an error outside 1..line count marks nothing |
| FileComparison.RepairIsHighlighted | src/components/FileComparison.tsx:25-30 | with the reported errors, both panes have the same number of rows, and every line the repair changed is marked in both |
| FilePreview.LineHasError | src/components/FilePreview.tsx:19 | some error has line number index+1 |
| FilePreview.LineClass | src/components/FilePreview.tsx:18-23 | a line is flagged if and only if some error has line number index+1 |
| FilePreview.PreviewRows | src/components/FilePreview.tsx:45-55 | one row per line, numbered from 1, highlighted exactly when flagged |
| FilePreview.Description | src/components/FilePreview.tsx:33-39 | `File content preview` with no errors, `1 error detected` for one, `N errors detected` otherwise |
| FilePreview.PreviewMatchesComparison | src/components/FilePreview.tsx:19 | the preview marks exactly the rows the comparison view marks for the same errors |
| FilePreview.NoErrorsNoHighlight | src/components/FilePreview.tsx:19-22 | without errors no row is marked |

## Left out

- Randomness and the clock:
  - every `Math.random()` draw is a parameter (`gate`, `augment`, `flags`);
  - `Date.now()` is the parameter `stamp`;
  - the model says nothing about how often a draw fires.
- Timers and `await`: the delays before detection, fixing and each cleaning step
  are animation only. The transient `isDetecting` and `isFixing` flags are not
  modelled, and each method runs as if its delay had passed.
- Browser I/O:
  - `FileReader`, drag and drop, and the file-type check of
    `src/components/FileUpload.tsx`. FileUpload.tsx is not part of this model.
  - `Blob`/`URL`/`document` downloads. Only the download's name and body are
    modelled.
  - Toasts, the login gate, the theme, and all markup.
  - The cell and badge colours of `getTypeColor`, which only choose markup
    classes.
  - The capitalised badge text and the "…s Fixed" card text.
- `JSON.parse` is a foreign call. Its outcome is the parameter `json`: records,
  or an exception that sends the upload to the fallback reader. No check is made
  that the parsed value is an array of records.
- Floating point:
  - progress is the number of finished steps, not a percentage;
  - confidences are thousandths;
  - JavaScript numbers in records are integers (`Num(int)`), and any other JSON
    value is kept only as its text rendering.
- Step 3 (duplicate removal) has no case in the code and does nothing here.
  Step 5 (validation) also has no case.
- Unicode: `toLowerCase`, `trim`, `trimEnd` and `\s` are taken over ASCII only.
- Ingest.SampleRowFields: `line.length` and `line.substring(0, 100)` count UTF-16
  code units, while the model counts characters. For a line holding a character
  outside the Basic Multilingual Plane (an emoji, say), the source reports a
  larger `length` and may cut the content at a different place.
- Ingest.CsvRowKeys: assigning to a header named `__proto__` in JavaScript calls
  the prototype setter and creates no key. The model treats `__proto__` like any
  other name, so for such a header the record gains a key the source does not.
- Object key order: `Object.keys` lists integer-like keys first in ascending
  order. The model keeps plain insertion order for every key.
- The callbacks `onErrorsDetected` and `onErrorsFixed` go to a host outside the
  core. The model keeps only the state the component stores.
- The slider defaults (100 for the data comparison, 50 for the file comparison)
  are initial UI state. They are not modelled.
- The text round trip in the other direction, export after import giving back
  the original CSV text, is not stated. The reader adds an `id` column first,
  and it trims and re-joins the text, so the text only comes back for a CSV whose
  first column is `id` and whose cells carry no padding or quotes.
- ErrorDetection.ErrorDetector.FixErrors: the requirement that detection found
  errors reflects the button's visibility guard. The source function itself
  would also run before detection.
