/**
 * The upload page (`src/pages/Index.tsx`): the naive CSV reader, the per-line
 * fallback records, the choice between them by file name, and the page state
 * that an upload and a completed cleaning run update.
 */
module Ingest {
  import opened Text
  import opened Records

  /* ---------------- parseCSV ---------------- */

  /** `content.trim().split('\n')`. */
  function CsvLines(content: string): seq<string> {
    Split(Trim(content), '\n')
  }

  /** `cell.trim().replace(/"/g, '')`: no double quote is left. */
  function CleanCell(cell: string): (c: string)
    ensures '"' !in c
  {
    ReplaceCharRemoves(Trim(cell), '"', "");
    ReplaceAll(Trim(cell), "\"", "")
  }

  /** `line.split(',').map(CleanCell)`. */
  function Cells(line: string): (cells: seq<string>)
    ensures |cells| == |Split(line, ',')|
    ensures forall i :: 0 <= i < |cells| ==> cells[i] == CleanCell(Split(line, ',')[i])
  {
    var parts := Split(line, ',');
    seq(|parts|, i requires 0 <= i < |parts| => CleanCell(parts[i]))
  }

  /** `values[k] || ''`: a missing or empty value reads as the empty string. */
  function CellAt(values: seq<string>, k: nat): Value {
    if k < |values| && values[k] != "" then Str(values[k]) else Str("")
  }

  /** The identifier `row_${i}`. */
  function RowId(i: nat): string {
    "row_" + NatToString(i)
  }

  /** The row after `headers.forEach((h, k) => row[h] = values[k] || '')` has handled
      the first `n` headers. */
  function Assigned(base: Row, headers: seq<string>, values: seq<string>, n: nat): Row
    requires n <= |headers|
  {
    if n == 0 then base
    else Assigned(base, headers, values, n - 1).Set(headers[n - 1], CellAt(values, n - 1))
  }

  /** The record read from data line number `i` (1-based). */
  function CsvRow(headers: seq<string>, line: string, i: nat): Row {
    Assigned(Single("id", Str(RowId(i))), headers, Cells(line), |headers|)
  }

  /** The cleaned header cells. */
  function CsvHeaders(content: string): seq<string>
    requires |CsvLines(content)| >= 1
  {
    Cells(CsvLines(content)[0])
  }

  /** The records read from data lines `1..n`. */
  function CsvRows(headers: seq<string>, lines: seq<string>, n: nat): (rows: seq<Row>)
    requires n < |lines|
    ensures |rows| == n
  {
    if n == 0 then [] else CsvRows(headers, lines, n - 1) + [CsvRow(headers, lines[n], n)]
  }

  lemma {:induction false} CsvRowsAt(headers: seq<string>, lines: seq<string>, n: nat, i: nat)
    requires i < n < |lines|
    ensures CsvRows(headers, lines, n)[i] == CsvRow(headers, lines[i + 1], i + 1)
  {
    if i < n - 1 {
      CsvRowsAt(headers, lines, n - 1, i);
    } else {
      assert i + 1 == n;
    }
  }

  /** What `parseCSV` returns: nothing without a data line, else one record per
      data line. */
  function CsvRecords(content: string): (rows: seq<Row>)
    ensures |CsvLines(content)| < 2 ==> rows == []
    ensures |CsvLines(content)| >= 2 ==> |rows| == |CsvLines(content)| - 1
  {
    var lines := CsvLines(content);
    if |lines| < 2 then [] else CsvRows(CsvHeaders(content), lines, |lines| - 1)
  }

  /** `parseCSV` returns `[]` when the trimmed content has fewer than two lines, and
      otherwise one record per data line, in order: record `i` is read from line
      `i + 1` with the header cells. */
  lemma CsvRecordsShape(content: string)
    ensures var lines := CsvLines(content);
      && (|lines| < 2 ==> CsvRecords(content) == [])
      && (|lines| >= 2 ==> |CsvRecords(content)| == |lines| - 1)
      && (forall i :: 0 <= i < |CsvRecords(content)| ==>
            CsvRecords(content)[i] == CsvRow(CsvHeaders(content), lines[i + 1], i + 1))
  {
    var lines := CsvLines(content);
    forall i | 0 <= i < |CsvRecords(content)|
      ensures CsvRecords(content)[i] == CsvRow(CsvHeaders(content), lines[i + 1], i + 1)
    {
      CsvRowsAt(CsvHeaders(content), lines, |lines| - 1, i);
    }
  }

  lemma CsvRecordAt(content: string, i: nat)
    requires i < |CsvRecords(content)|
    ensures |CsvLines(content)| >= 2 && i + 1 < |CsvLines(content)|
    ensures CsvRecords(content)[i] == CsvRow(CsvHeaders(content), CsvLines(content)[i + 1], i + 1)
  {
    var lines := CsvLines(content);
    assert |lines| >= 2;
    assert CsvRecords(content) == CsvRows(CsvHeaders(content), lines, |lines| - 1);
    CsvRowsAt(CsvHeaders(content), lines, |lines| - 1, i);
  }

  /** The body of `parseCSV`'s line loop: a fresh row with its identifier, then one
      assignment per header. */
  method ReadRow(headers: seq<string>, line: string, i: nat) returns (row: Row)
    ensures row == CsvRow(headers, line, i)
  {
    var values := Cells(line);
    row := Single("id", Str(RowId(i)));
    for k := 0 to |headers|
      invariant row == Assigned(Single("id", Str(RowId(i))), headers, values, k)
    {
      row := row.Set(headers[k], CellAt(values, k));
    }
  }

  /** `parseCSV`'s loop over the data lines `1..|lines|-1`. */
  method ReadRows(headers: seq<string>, lines: seq<string>) returns (data: seq<Row>)
    requires |lines| >= 1
    ensures data == CsvRows(headers, lines, |lines| - 1)
  {
    data := [];
    for i := 1 to |lines|
      invariant data == CsvRows(headers, lines, i - 1)
    {
      var row := ReadRow(headers, lines[i], i);
      data := data + [row];
    }
  }

  /** `parseCSV`: fewer than two lines give no records; otherwise the header cells
      and one record per data line. */
  method ParseCsv(content: string) returns (data: seq<Row>)
    ensures data == CsvRecords(content)
  {
    var lines := Split(Trim(content), '\n');
    if |lines| < 2 {
      return [];
    }
    var headers := Cells(lines[0]);
    data := ReadRows(headers, lines);
  }

  /** `headers[k]` is not assigned again by a later header. */
  predicate LastOccurrence(headers: seq<string>, k: nat)
    requires k < |headers|
  {
    headers[k] !in headers[k + 1..]
  }

  lemma {:induction false} AssignedValid(base: Row, headers: seq<string>, values: seq<string>, n: nat)
    requires base.Valid() && n <= |headers|
    ensures Assigned(base, headers, values, n).Valid()
  {
    if n > 0 {
      AssignedValid(base, headers, values, n - 1);
      SetValid(Assigned(base, headers, values, n - 1), headers[n - 1], CellAt(values, n - 1));
    }
  }

  /** The header loop keeps the starting keys in front and adds each new header in order. */
  lemma {:induction false} AssignedKeys(base: Row, headers: seq<string>, values: seq<string>, n: nat)
    requires n <= |headers|
    ensures var r := Assigned(base, headers, values, n);
      && |base.keys| <= |r.keys| && r.keys[..|base.keys|] == base.keys
      && (forall h :: h in r.keys <==> h in base.keys || h in headers[..n])
  {
    if n > 0 {
      AssignedKeys(base, headers, values, n - 1);
      assert headers[..n] == headers[..n - 1] + [headers[n - 1]];
    }
  }

  /** A key no header names keeps its starting value. */
  lemma {:induction false} AssignedUntouched(base: Row, headers: seq<string>, values: seq<string>, n: nat, h: string)
    requires n <= |headers| && h !in headers[..n]
    ensures Assigned(base, headers, values, n).Get(h) == base.Get(h)
  {
    if n > 0 {
      assert headers[..n] == headers[..n - 1] + [headers[n - 1]];
      AssignedUntouched(base, headers, values, n - 1, h);
    }
  }

  /** A header holds the value in the column of its last occurrence. */
  lemma {:induction false} AssignedLastWrite(base: Row, headers: seq<string>, values: seq<string>, n: nat, k: nat)
    requires k < n <= |headers| && headers[k] !in headers[k + 1..n]
    ensures Assigned(base, headers, values, n).Get(headers[k]) == CellAt(values, k)
  {
    if k < n - 1 {
      assert headers[n - 1] == headers[k + 1..n][n - 2 - k];
      assert headers[k] !in headers[k + 1..n - 1] by {
        forall j | k + 1 <= j < n - 1 ensures headers[j] != headers[k] {
          assert headers[j] == headers[k + 1..n][j - k - 1];
        }
      }
      AssignedLastWrite(base, headers, values, n - 1, k);
    }
  }

  /** A record read from a data line is well formed, starts with `id`, and its keys
      are `id` and the headers. */
  lemma CsvRowKeys(headers: seq<string>, line: string, i: nat)
    ensures var r := CsvRow(headers, line, i);
      && r.Valid() && |r.keys| > 0 && r.keys[0] == "id"
      && (forall h :: h in r.keys <==> h == "id" || h in headers)
  {
    var base := Single("id", Str(RowId(i)));
    SingleValid("id", Str(RowId(i)));
    AssignedValid(base, headers, Cells(line), |headers|);
    AssignedKeys(base, headers, Cells(line), |headers|);
    assert headers[..|headers|] == headers;
  }

  /** The values of a record read from a data line: a header holds the value in its
      (last) column, or `''` when the line is short; the identifier is `row_<i>` unless
      a header named `id` overwrote it. */
  lemma CsvRowValues(headers: seq<string>, line: string, i: nat)
    ensures var r := CsvRow(headers, line, i);
      && ("id" !in headers ==> r.Get("id") == Str(RowId(i)))
      && (forall k :: 0 <= k < |headers| && LastOccurrence(headers, k) ==> r.Get(headers[k]) == CellAt(Cells(line), k))
  {
    var values := Cells(line);
    var base := Single("id", Str(RowId(i)));
    assert headers[..|headers|] == headers;
    if "id" !in headers {
      AssignedUntouched(base, headers, values, |headers|, "id");
    }
    forall k | 0 <= k < |headers| && LastOccurrence(headers, k)
      ensures CsvRow(headers, line, i).Get(headers[k]) == CellAt(values, k)
    {
      assert headers[k + 1..] == headers[k + 1..|headers|];
      AssignedLastWrite(base, headers, values, |headers|, k);
    }
  }

  /** Each `parseCSV` record is well formed, starts with `id`, and its keys are `id`
      and the headers; a header holds the value in its (last) column or `''` when the
      line is short; the identifier is `row_<i+1>` unless a header named `id`
      overwrote it. */
  lemma CsvRecordFields(content: string, i: nat)
    requires i < |CsvRecords(content)|
    ensures |CsvLines(content)| >= 2 && i + 1 < |CsvLines(content)|
    ensures var headers := CsvHeaders(content);
      var values := Cells(CsvLines(content)[i + 1]);
      var r := CsvRecords(content)[i];
      && r.Valid() && |r.keys| > 0 && r.keys[0] == "id"
      && (forall h :: h in r.keys <==> h == "id" || h in headers)
      && ("id" !in headers ==> r.Get("id") == Str(RowId(i + 1)))
      && (forall k :: 0 <= k < |headers| && LastOccurrence(headers, k) ==> r.Get(headers[k]) == CellAt(values, k))
  {
    CsvRecordAt(content, i);
    CsvRowKeys(CsvHeaders(content), CsvLines(content)[i + 1], i + 1);
    CsvRowValues(CsvHeaders(content), CsvLines(content)[i + 1], i + 1);
  }

  /** A record whose keys and string values hold no double quote. */
  ghost predicate QuoteFree(r: Row) {
    forall h :: h in r.keys ==> '"' !in h && r.Get(h).Str? && '"' !in r.Get(h).s
  }

  lemma {:induction false} CellsQuoteFree(line: string)
    ensures forall k :: 0 <= k < |Cells(line)| ==> '"' !in Cells(line)[k]
  {
    forall k | 0 <= k < |Cells(line)| ensures '"' !in Cells(line)[k] {
      assert Cells(line)[k] == CleanCell(Split(line, ',')[k]);
    }
  }

  lemma {:induction false} AssignedQuoteFree(base: Row, headers: seq<string>, values: seq<string>, n: nat)
    requires n <= |headers|
    requires QuoteFree(base)
    requires forall k :: 0 <= k < |headers| ==> '"' !in headers[k]
    requires forall k :: 0 <= k < |values| ==> '"' !in values[k]
    ensures QuoteFree(Assigned(base, headers, values, n))
  {
    if n > 0 {
      AssignedQuoteFree(base, headers, values, n - 1);
    }
  }

  /** Every header and every value `parseCSV` produces is a string free of `"`. */
  lemma CsvRecordQuoteFree(content: string, i: nat)
    requires i < |CsvRecords(content)|
    ensures QuoteFree(CsvRecords(content)[i])
  {
    CsvRecordAt(content, i);
    var line := CsvLines(content)[i + 1];
    CellsQuoteFree(CsvLines(content)[0]);
    CellsQuoteFree(line);
    var digits := NatToString(i + 1);
    assert '"' !in digits;
    assert '"' !in RowId(i + 1) by {
      assert RowId(i + 1) == "row_" + digits;
    }
    AssignedQuoteFree(Single("id", Str(RowId(i + 1))), CsvHeaders(content), Cells(line), |CsvHeaders(content)|);
  }

  /** Trimming happens before quotes are dropped, so padding inside quotes survives:
      the cell `" a "` reads as ` a `. */
  lemma QuotedPaddingSurvives()
    ensures CleanCell("\" a \"") == " a "
  {
    var cell := "\" a \"";
    assert LeadingWhitespace(cell) == 0 && TrimStart(cell) == cell;
    assert TrailingWhitespace(cell) == 0 && TrimEnd(cell) == cell;
    var q := "\"";
    assert !IsPrefix(q, " a \"") && !IsPrefix(q, "a \"") && !IsPrefix(q, " \"");
    assert ReplaceAll(cell[4..], q, "") == "";
    assert ReplaceAll(cell[3..], q, "") == [' '] + "";
    assert ReplaceAll(cell[2..], q, "") == ['a'] + " ";
    assert ReplaceAll(cell[1..], q, "") == [' '] + "a ";
  }

  /* ---------------- createSampleDataFromContent ---------------- */

  /** At most this many fallback records. */
  const SampleLimit: nat := 10
  /** At most this many characters of a line in a fallback record. */
  const ContentLimit: nat := 100

  function Min(a: nat, b: nat): nat {
    if a <= b then a else b
  }

  /** The fallback record for the line at 0-based `index`; `flagged` stands for the
      random `hasError` draw. */
  function SampleRow(line: string, index: nat, flagged: bool): Row {
    Row(["id", "content", "lineNumber", "length", "hasError"],
        map["id" := Str(RowId(index + 1)),
            "content" := Str(line[..Min(ContentLimit, |line|)]),
            "lineNumber" := Num(index + 1),
            "length" := Num(|line|),
            "hasError" := Str(if flagged then "Yes" else "No")])
  }

  /** A fallback record carries `row_<index+1>`, the line's first 100 characters, its
      1-based number, its full length and a `Yes`/`No` flag. */
  lemma SampleRowFields(line: string, index: nat, flagged: bool)
    ensures var r := SampleRow(line, index, flagged);
      && r.Valid()
      && r.Get("id") == Str(RowId(index + 1))
      && r.Get("content") == Str(line[..Min(ContentLimit, |line|)])
      && |r.Get("content").s| <= ContentLimit
      && IsPrefix(r.Get("content").s, line)
      && r.Get("lineNumber") == Num(index + 1)
      && r.Get("length") == Num(|line|)
      && r.Get("hasError") == Str(if flagged then "Yes" else "No")
  {
  }

  /** `createSampleDataFromContent`: one record per line of the first ten lines.
      `flags(k)` is the random draw for line `k`. */
  function SampleRecords(content: string, flags: nat -> bool): (rows: seq<Row>)
    ensures |rows| == Min(SampleLimit, |Split(content, '\n')|)
    ensures forall k :: 0 <= k < |rows| ==> rows[k] == SampleRow(Split(content, '\n')[k], k, flags(k))
  {
    var lines := Split(content, '\n');
    var shown := lines[..Min(SampleLimit, |lines|)];
    seq(|shown|, k requires 0 <= k < |shown| => SampleRow(shown[k], k, flags(k)))
  }

  /** The fallback never yields more than ten records, and yields at least one. */
  lemma SampleRecordsCount(content: string, flags: nat -> bool)
    ensures 1 <= |SampleRecords(content, flags)| <= SampleLimit
  {
  }

  /* ---------------- handleFileUpload ---------------- */

  /** What `JSON.parse` did with the content: a sequence of records, or an exception. */
  datatype JsonParse = Parsed(rows: seq<Row>) | Threw

  /** The reader chosen by the file name. */
  datatype Format = CsvFormat | JsonFormat | OtherFormat

  function FormatOf(name: string): (f: Format)
    ensures f == CsvFormat <==> EndsWith(name, ".csv")
    ensures f == JsonFormat <==> !EndsWith(name, ".csv") && EndsWith(name, ".json")
  {
    if EndsWith(name, ".csv") then CsvFormat
    else if EndsWith(name, ".json") then JsonFormat
    else OtherFormat
  }

  /** The records `handleFileUpload` computes: `.csv` goes to the CSV reader, `.json`
      to `JSON.parse`, anything else, or a parse that throws, to the fallback. */
  function ParseUpload(name: string, content: string, json: JsonParse, flags: nat -> bool): (rows: seq<Row>)
    ensures EndsWith(name, ".csv") ==> rows == CsvRecords(content)
    ensures !EndsWith(name, ".csv") && EndsWith(name, ".json") && json.Parsed? ==> rows == json.rows
    ensures !EndsWith(name, ".csv") && (!EndsWith(name, ".json") || json.Threw?) ==> rows == SampleRecords(content, flags)
  {
    match FormatOf(name)
    case CsvFormat => CsvRecords(content)
    case JsonFormat => if json.Parsed? then json.rows else SampleRecords(content, flags)
    case OtherFormat => SampleRecords(content, flags)
  }

  /** The uploaded file, if any. */
  datatype Upload = NoUpload | Upload(name: string, content: string)

  /** The page's state fields. */
  class Page {
    var uploadedFile: Upload
    var originalData: seq<Row>
    var cleanedData: seq<Row>
    var cleaningResults: seq<CleaningResult>
    var showComparison: bool

    constructor ()
      ensures uploadedFile == NoUpload && originalData == [] && cleanedData == []
      ensures cleaningResults == [] && !showComparison
    {
      uploadedFile := NoUpload;
      originalData := [];
      cleanedData := [];
      cleaningResults := [];
      showComparison := false;
    }

    /** The preview and the pipeline are shown once a file with records is loaded. */
    predicate ShowsWorkspace()
      reads this
    {
      uploadedFile.Upload? && |originalData| > 0
    }

    /** The comparison is shown after a cleaning run that produced records. */
    predicate ShowsComparison()
      reads this
    {
      ShowsWorkspace() && showComparison && |cleanedData| > 0
    }

    /** `handleFileUpload`: stores the new records and discards the previous run. */
    method HandleFileUpload(name: string, content: string, json: JsonParse, flags: nat -> bool)
      modifies this
      ensures uploadedFile == Upload(name, content)
      ensures originalData == ParseUpload(name, content, json, flags)
      ensures cleanedData == [] && cleaningResults == [] && !showComparison
      ensures !ShowsComparison()
    {
      uploadedFile := Upload(name, content);
      var parsed := ParseUpload(name, content, json, flags);
      originalData := parsed;
      cleanedData := [];
      cleaningResults := [];
      showComparison := false;
    }

    /** `handleCleaningComplete`: stores the run's records and ledger and turns the
        comparison on; the upload and its records stay. */
    method HandleCleaningComplete(cleaned: seq<Row>, results: seq<CleaningResult>)
      modifies this
      ensures cleanedData == cleaned && cleaningResults == results && showComparison
      ensures uploadedFile == old(uploadedFile) && originalData == old(originalData)
      ensures old(ShowsWorkspace()) && |cleaned| > 0 ==> ShowsComparison()
    {
      cleanedData := cleaned;
      cleaningResults := results;
      showComparison := true;
    }
  }
}
