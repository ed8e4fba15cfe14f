/**
 * Exporting a table with `convertToCSV` and reading the text back with
 * `parseCSV` gives the table again, as long as every column name and every value
 * is plain text: no comma, no double quote, no line break and no surrounding
 * whitespace, with `id` as the first column and a non-empty identifier.
 */
module RoundTrip {
  import opened Text
  import opened Records
  import opened Ingest
  import opened TablePreview

  /** Text the CSV reader returns as it was written. */
  predicate PlainText(s: string) {
    ',' !in s && '"' !in s && '\n' !in s && Trimmed(s)
  }

  /** A row whose value in each column is plain text. */
  ghost predicate PlainRow(row: Row, headers: seq<string>) {
    && row.Valid() && row.keys == headers
    && row.Get("id").Str? && row.Get("id").s != ""
    && forall k :: 0 <= k < |headers| ==> row.Get(headers[k]).Str? && PlainText(row.Get(headers[k]).s)
  }

  /** A table of plain rows that share their columns, the first of which is `id`. */
  ghost predicate PlainTable(rows: seq<Row>) {
    && |rows| > 0
    && var headers := rows[0].keys;
    && |headers| > 0 && headers[0] == "id"
    && (forall k :: 0 <= k < |headers| ==> PlainText(headers[k]))
    && forall i :: 0 <= i < |rows| ==> PlainRow(rows[i], headers)
  }

  /** The values a plain row exports. */
  lemma {:induction false} PlainFields(row: Row, headers: seq<string>)
    requires PlainRow(row, headers)
    ensures forall k :: 0 <= k < |headers| ==>
      CsvFields(row, headers)[k] == row.Get(headers[k]).s && PlainText(CsvFields(row, headers)[k])
  {
    forall k | 0 <= k < |headers|
      ensures CsvFields(row, headers)[k] == row.Get(headers[k]).s
    {
      assert !NeedsQuoting(row.Get(headers[k]));
    }
  }

  /** A comma-joined line of plain cells reads back as those cells. */
  lemma {:induction false} CellsOfPlain(parts: seq<string>)
    requires |parts| >= 1
    requires forall k :: 0 <= k < |parts| ==> PlainText(parts[k])
    ensures Cells(Join(parts, ',')) == parts
  {
    SplitJoin(parts, ',');
    forall k | 0 <= k < |parts| ensures CleanCell(parts[k]) == parts[k] {
      TrimOfTrimmed(parts[k]);
      ReplaceCharAbsent(parts[k], '"', "");
    }
  }

  /** A comma-joined line of plain cells, the first one non-empty, is non-empty, free
      of line breaks, and has no surrounding whitespace. */
  lemma {:induction false} PlainLine(parts: seq<string>)
    requires |parts| >= 1 && parts[0] != []
    requires forall k :: 0 <= k < |parts| ==> PlainText(parts[k])
    ensures var line := Join(parts, ',');
      line != [] && '\n' !in line && Trimmed(line) && line[0] == parts[0][0]
  {
    JoinFirst(parts, ',');
    JoinHasNo(parts, ',', '\n');
    JoinTrimmed(parts, ',');
  }

  /** With the first column already present, the header loop lays the keys out in
      column order. */
  lemma {:induction false} AssignedKeysInOrder(base: Row, headers: seq<string>, values: seq<string>, n: nat)
    requires 1 <= n <= |headers| && base.keys == [headers[0]]
    requires forall a, b :: 0 <= a < b < |headers| ==> headers[a] != headers[b]
    ensures Assigned(base, headers, values, n).keys == headers[..n]
  {
    if n > 1 {
      AssignedKeysInOrder(base, headers, values, n - 1);
      assert headers[n - 1] !in headers[..n - 1] by {
        forall a | 0 <= a < n - 1 ensures headers[a] != headers[n - 1] {
        }
      }
      assert headers[..n] == headers[..n - 1] + [headers[n - 1]];
    }
  }

  /** Reading a line of plain cells under distinct columns headed by `id` gives a
      record whose keys are the columns, in order, each holding its cell. */
  lemma ReadPlainLine(headers: seq<string>, fields: seq<string>, i: nat)
    requires |headers| > 0 && headers[0] == "id" && |fields| == |headers|
    requires forall a, b :: 0 <= a < b < |headers| ==> headers[a] != headers[b]
    requires forall k :: 0 <= k < |fields| ==> PlainText(fields[k])
    ensures var r := CsvRow(headers, Join(fields, ','), i);
      && r.Valid() && r.keys == headers
      && forall k :: 0 <= k < |headers| ==> r.Get(headers[k]) == Str(fields[k])
  {
    CellsOfPlain(fields);
    var base := Single("id", Str(RowId(i)));
    SingleValid("id", Str(RowId(i)));
    AssignedValid(base, headers, fields, |headers|);
    AssignedKeysInOrder(base, headers, fields, |headers|);
    assert headers[..|headers|] == headers;
    forall k | 0 <= k < |headers|
      ensures Assigned(base, headers, fields, |headers|).Get(headers[k]) == Str(fields[k])
    {
      assert headers[k] !in headers[k + 1..|headers|] by {
        forall b | k + 1 <= b < |headers| ensures headers[b] != headers[k] {
        }
      }
      AssignedLastWrite(base, headers, fields, |headers|, k);
    }
  }

  /** Reading back the exported line of a plain row gives the row. */
  lemma RowRoundTrip(row: Row, headers: seq<string>, i: nat)
    requires |headers| > 0 && headers[0] == "id"
    requires PlainRow(row, headers)
    ensures CsvRow(headers, CsvLine(row, headers), i) == row
  {
    var fields := CsvFields(row, headers);
    PlainFields(row, headers);
    ReadPlainLine(headers, fields, i);
    var r := CsvRow(headers, Join(fields, ','), i);
    assert forall k :: 0 <= k < |headers| ==> r.Get(headers[k]) == row.Get(headers[k]);
    RowExt(r, row);
  }

  /** Lines that are non-empty, free of line breaks and of surrounding whitespace,
      joined with `\n`, are read back as the same lines. */
  lemma {:induction false} ReadJoinedLines(pieces: seq<string>)
    requires |pieces| >= 1
    requires forall i :: 0 <= i < |pieces| ==> pieces[i] != [] && '\n' !in pieces[i] && Trimmed(pieces[i])
    ensures Split(Trim(Join(pieces, '\n')), '\n') == pieces
  {
    var content := Join(pieces, '\n');
    JoinFirst(pieces, '\n');
    JoinLast(pieces, '\n');
    assert Trimmed(content);
    TrimOfTrimmed(content);
    SplitJoin(pieces, '\n');
  }

  /** The exported line of a plain row is non-empty, free of line breaks and of
      surrounding whitespace. */
  lemma PlainRowLine(row: Row, headers: seq<string>)
    requires |headers| > 0 && headers[0] == "id"
    requires PlainRow(row, headers)
    ensures var line := CsvLine(row, headers); line != [] && '\n' !in line && Trimmed(line)
  {
    PlainFields(row, headers);
    PlainLine(CsvFields(row, headers));
  }

  /** The exported line of each row of a plain table is non-empty, free of line
      breaks and of surrounding whitespace. */
  lemma PlainTableLine(rows: seq<Row>, i: nat)
    requires PlainTable(rows) && i < |rows|
    ensures var line := CsvBody(rows, rows[0].keys)[i]; line != [] && '\n' !in line && Trimmed(line)
  {
    assert PlainRow(rows[i], rows[0].keys);
    PlainRowLine(rows[i], rows[0].keys);
  }

  /** Every line of the export of a plain table, the header line first, is
      non-empty, free of line breaks and of surrounding whitespace. */
  lemma PlainExportLines(rows: seq<Row>, pieces: seq<string>)
    requires PlainTable(rows)
    requires pieces == [Join(rows[0].keys, ',')] + CsvBody(rows, rows[0].keys)
    ensures forall i :: 0 <= i < |pieces| ==> pieces[i] != [] && '\n' !in pieces[i] && Trimmed(pieces[i])
  {
    var body := CsvBody(rows, rows[0].keys);
    PlainLine(rows[0].keys);
    forall i | 0 <= i < |body|
      ensures body[i] != [] && '\n' !in body[i] && Trimmed(body[i])
    {
      PlainTableLine(rows, i);
    }
    assert forall i :: 1 <= i < |pieces| ==> pieces[i] == body[i - 1];
  }

  /** The exported text of a plain table is split back into its header line and
      one line per row, and trimming leaves it alone. */
  lemma ExportLines(rows: seq<Row>)
    requires PlainTable(rows)
    ensures CsvLines(ToCsv(rows)) == [Join(rows[0].keys, ',')] + CsvBody(rows, rows[0].keys)
  {
    var pieces := [Join(rows[0].keys, ',')] + CsvBody(rows, rows[0].keys);
    PlainExportLines(rows, pieces);
    ReadJoinedLines(pieces);
    assert ToCsv(rows) == Join(pieces, '\n');
  }

  /** The export of a plain table is read as its columns, then one line per row. */
  lemma ExportShape(rows: seq<Row>)
    requires PlainTable(rows)
    ensures |CsvLines(ToCsv(rows))| == |rows| + 1
    ensures CsvHeaders(ToCsv(rows)) == rows[0].keys
    ensures forall i :: 0 <= i < |rows| ==> CsvLines(ToCsv(rows))[i + 1] == CsvLine(rows[i], rows[0].keys)
  {
    ExportLines(rows);
    CellsOfPlain(rows[0].keys);
  }

  /** Reading the export of a plain table gives one record per row, and the i-th
      record is the i-th row. */
  lemma ExportedRecord(rows: seq<Row>, i: nat)
    requires PlainTable(rows) && i < |rows|
    ensures |CsvRecords(ToCsv(rows))| == |rows|
    ensures CsvRecords(ToCsv(rows))[i] == rows[i]
  {
    var headers := rows[0].keys;
    var content := ToCsv(rows);
    ExportShape(rows);
    CsvRecordAt(content, i);
    var line := CsvLines(content)[i + 1];
    assert line == CsvLine(rows[i], headers);
    assert CsvRecords(content)[i] == CsvRow(headers, line, i + 1);
    assert PlainRow(rows[i], headers);
    RowRoundTrip(rows[i], headers, i + 1);
  }

  /** `parseCSV(convertToCSV(rows))` gives `rows` back for a plain table, and for the
      empty table. */
  lemma ExportThenParse(rows: seq<Row>)
    requires rows == [] || PlainTable(rows)
    ensures CsvRecords(ToCsv(rows)) == rows
  {
    if rows != [] {
      var records := CsvRecords(ToCsv(rows));
      ExportedRecord(rows, 0);
      forall i | 0 <= i < |rows| ensures records[i] == rows[i] {
        ExportedRecord(rows, i);
      }
      assert records == rows;
    }
  }
}
