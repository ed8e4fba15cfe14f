/**
 * The table preview (`src/components/DataTablePreview.tsx`): CSV export, the
 * per-cell lookup of a cleaning result and the class it selects, the download
 * file name, and the badges that count the applied fixes by kind.
 */
module TablePreview {
  import opened Text
  import opened Records

  /* ---------------- convertToCSV ---------------- */

  /** A string value that holds a comma or a double quote is written quoted. */
  predicate NeedsQuoting(v: Value) {
    v.Str? && (',' in v.s || '"' in v.s)
  }

  /** `s.replace(/"/g, '""')`. */
  function Double(s: string): string {
    ReplaceAll(s, "\"", "\"\"")
  }

  /** The text one cell contributes to an exported line. */
  function CsvField(v: Value): string {
    if NeedsQuoting(v) then "\"" + Double(v.s) + "\"" else JoinText(v)
  }

  /** Reading back the doubled quotes of a quoted field: `""` is one `"`. */
  function Undouble(t: string): string
    decreases |t|
  {
    if |t| == 0 then ""
    else if |t| >= 2 && t[0] == '"' && t[1] == '"' then "\"" + Undouble(t[2..])
    else [t[0]] + Undouble(t[1..])
  }

  /** Reading a field as section 2 of RFC 4180 does: a field enclosed in quotes has
      the enclosing quotes removed and its doubled quotes undone. */
  function Unquote(f: string): string {
    if |f| >= 2 && f[0] == '"' && f[|f| - 1] == '"' then Undouble(f[1..|f| - 1]) else f
  }

  lemma {:induction false} UndoubleDouble(s: string)
    ensures Undouble(Double(s)) == s
  {
    if |s| > 0 {
      UndoubleDouble(s[1..]);
      assert s == [s[0]] + s[1..];
      if s[0] == '"' {
        assert Double(s) == "\"\"" + Double(s[1..]);
        assert (Double(s))[2..] == Double(s[1..]);
      } else {
        assert Double(s) == [s[0]] + Double(s[1..]);
        assert (Double(s))[1..] == Double(s[1..]);
      }
    }
  }

  /** A string that holds `,` or `"` is written as `"`, the string with each `"`
      doubled, and `"`, and reading that field back gives the string; any other value
      is written as `Array.join` renders it. */
  lemma CsvFieldEscapes(v: Value)
    ensures NeedsQuoting(v) ==>
      var f := CsvField(v);
      && |f| >= 2 && f[0] == '"' && f[|f| - 1] == '"'
      && f[1..|f| - 1] == Double(v.s)
      && Unquote(f) == v.s
    ensures !NeedsQuoting(v) ==> CsvField(v) == JoinText(v)
    ensures v.Str? ==> Unquote(CsvField(v)) == v.s
  {
    if NeedsQuoting(v) {
      var f := CsvField(v);
      assert f[1..|f| - 1] == Double(v.s);
      UndoubleDouble(v.s);
    }
  }

  /** The cells of one exported line, one per column. */
  function CsvFields(row: Row, headers: seq<string>): (fields: seq<string>)
    ensures |fields| == |headers|
    ensures forall k :: 0 <= k < |headers| ==> fields[k] == CsvField(row.Get(headers[k]))
  {
    seq(|headers|, k requires 0 <= k < |headers| => CsvField(row.Get(headers[k])))
  }

  /** The line exported for `row` under the given columns. */
  function CsvLine(row: Row, headers: seq<string>): string {
    Join(CsvFields(row, headers), ',')
  }

  /** The lines after the header line. */
  function CsvBody(rows: seq<Row>, headers: seq<string>): (lines: seq<string>)
    ensures |lines| == |rows|
    ensures forall i :: 0 <= i < |rows| ==> lines[i] == CsvLine(rows[i], headers)
  {
    seq(|rows|, i requires 0 <= i < |rows| => CsvLine(rows[i], headers))
  }

  /** The columns: the keys of the first record. */
  function Columns(rows: seq<Row>): seq<string>
    requires |rows| > 0
  {
    rows[0].keys
  }

  /** `convertToCSV`. */
  function ToCsv(rows: seq<Row>): (csv: string)
    ensures rows == [] ==> csv == ""
  {
    if |rows| == 0 then ""
    else Join([Join(Columns(rows), ',')] + CsvBody(rows, Columns(rows)), '\n')
  }

  /** No column name and no exported cell holds a line break. */
  ghost predicate SingleLineCells(rows: seq<Row>)
    requires |rows| > 0
  {
    && (forall k :: 0 <= k < |Columns(rows)| ==> '\n' !in Columns(rows)[k])
    && (forall i, k :: 0 <= i < |rows| && 0 <= k < |Columns(rows)| ==>
          '\n' !in CsvField(rows[i].Get(Columns(rows)[k])))
  }

  /** When no cell holds a line break, the export is the header line followed by
      exactly one line per record, in order: splitting it at `\n` gives them back. */
  lemma ToCsvLines(rows: seq<Row>)
    requires |rows| > 0 && SingleLineCells(rows)
    ensures var lines := Split(ToCsv(rows), '\n');
      && |lines| == |rows| + 1
      && lines[0] == Join(Columns(rows), ',')
      && forall i :: 0 <= i < |rows| ==> lines[i + 1] == CsvLine(rows[i], Columns(rows))
  {
    var headers := Columns(rows);
    var pieces := [Join(headers, ',')] + CsvBody(rows, headers);
    JoinHasNo(headers, ',', '\n');
    forall i | 0 <= i < |rows| ensures '\n' !in CsvLine(rows[i], headers) {
      JoinHasNo(CsvFields(rows[i], headers), ',', '\n');
    }
    SplitJoin(pieces, '\n');
  }

  /** Every line has one cell per column of the first record, in that order: a key
      the first record lacks is not exported, and a column the record lacks gives an
      empty cell. */
  lemma ToCsvColumns(rows: seq<Row>, i: nat, h: string)
    requires i < |rows| && rows[i].Valid()
    ensures |CsvFields(rows[i], Columns(rows))| == |rows[0].keys|
    ensures h !in rows[i].keys ==> forall k :: 0 <= k < |Columns(rows)| && Columns(rows)[k] == h ==>
      CsvFields(rows[i], Columns(rows))[k] == ""
  {
  }

  /* ---------------- getCleaningResultForCell / getCellClassName ---------------- */

  /** `cleaningResults.find(result => result.field === field)`: the first result
      logged for the field; the row is not consulted. */
  function FindResult(results: seq<CleaningResult>, rowId: string, field: string): (r: Option<CleaningResult>)
    ensures r.None? <==> forall i :: 0 <= i < |results| ==> results[i].field != field
    ensures r.Some? ==> exists i :: (0 <= i < |results| && results[i] == r.value && r.value.field == field
      && forall j :: 0 <= j < i ==> results[j].field != field)
  {
    if |results| == 0 then None
    else if results[0].field == field then Some(results[0])
    else
      var r := FindResult(results[1..], rowId, field);
      assert forall i :: 0 <= i < |results| - 1 ==> results[1..][i] == results[i + 1];
      r
  }

  /** The highlight a cell gets. */
  datatype CellClass = Plain | TypoClass | MissingClass | InconsistentClass | AugmentedClass

  /** The `switch` on the result type. */
  function ClassOf(kind: ResultType): (c: CellClass)
    ensures c == Plain <==> kind == Duplicate
  {
    match kind
    case Typo => TypoClass
    case Missing => MissingClass
    case Inconsistent => InconsistentClass
    case Augmented => AugmentedClass
    case Duplicate => Plain
  }

  /** The four highlighted kinds get four different classes. */
  lemma ClassOfInjective(a: ResultType, b: ResultType)
    requires ClassOf(a) != Plain && ClassOf(a) == ClassOf(b)
    ensures a == b
  {
  }

  /** `getCellClassName`. */
  function CellClassName(results: seq<CleaningResult>, rowId: string, field: string): (c: CellClass)
    ensures (forall i :: 0 <= i < |results| ==> results[i].field != field) ==> c == Plain
  {
    match FindResult(results, rowId, field)
    case None => Plain
    case Some(r) => ClassOf(r.kind)
  }

  /** The class depends on the column only: every cell of a column looks alike, and
      it is the class of the first result logged for that column. */
  lemma CellClassPerColumn(results: seq<CleaningResult>, rowA: string, rowB: string, field: string, i: nat)
    requires i < |results| && results[i].field == field
    requires forall j :: 0 <= j < i ==> results[j].field != field
    ensures CellClassName(results, rowA, field) == CellClassName(results, rowB, field) == ClassOf(results[i].kind)
  {
    var r := FindResult(results, rowA, field);
    var i' :| 0 <= i' < |results| && results[i'] == r.value && r.value.field == field
      && forall j :: 0 <= j < i' ==> results[j].field != field;
    assert i' == i;
    var r' := FindResult(results, rowB, field);
    var i'' :| 0 <= i'' < |results| && results[i''] == r'.value && r'.value.field == field
      && forall j :: 0 <= j < i'' ==> results[j].field != field;
    assert i'' == i;
  }

  /* ---------------- download file name ---------------- */

  /** `s.replace(/\s+/g, '_')`: each run of whitespace becomes one `_`. */
  function UnderscoreRuns(s: string): (r: string)
    ensures forall i :: 0 <= i < |r| ==> !IsWhitespace(r[i])
    ensures |r| <= |s|
    decreases |s|
  {
    if |s| == 0 then ""
    else if IsWhitespace(s[0]) then "_" + UnderscoreRuns(s[LeadingWhitespace(s)..])
    else [s[0]] + UnderscoreRuns(s[1..])
  }

  /** Text without whitespace passes through unchanged. */
  lemma {:induction false} UnderscoreRunsNoWhitespace(s: string)
    requires forall i :: 0 <= i < |s| ==> !IsWhitespace(s[i])
    ensures UnderscoreRuns(s) == s
  {
    if |s| > 0 {
      UnderscoreRunsNoWhitespace(s[1..]);
      assert s == [s[0]] + s[1..];
    }
  }

  /** A prefix without whitespace passes through unchanged in front of the rest. */
  lemma {:induction false} UnderscoreRunsAppend(p: string, s: string)
    requires forall i :: 0 <= i < |p| ==> !IsWhitespace(p[i])
    ensures UnderscoreRuns(p + s) == p + UnderscoreRuns(s)
  {
    if |p| > 0 {
      UnderscoreRunsAppend(p[1..], s);
      var t := p + s;
      assert t[0] == p[0] && !IsWhitespace(t[0]);
      assert t[1..] == p[1..] + s;
      assert UnderscoreRuns(t) == [p[0]] + UnderscoreRuns(p[1..] + s);
      assert [p[0]] + (p[1..] + UnderscoreRuns(s)) == p + UnderscoreRuns(s);
    } else {
      assert p + s == s;
    }
  }

  /** Each whitespace run is one `_`: a run, followed by text that does not start
      with whitespace, becomes `_` followed by that text's own rendering. */
  lemma UnderscoreRunsRun(run: string, rest: string)
    requires |run| > 0 && forall i :: 0 <= i < |run| ==> IsWhitespace(run[i])
    requires |rest| == 0 || !IsWhitespace(rest[0])
    ensures UnderscoreRuns(run + rest) == "_" + UnderscoreRuns(rest)
  {
    var s := run + rest;
    assert LeadingWhitespace(s) == |run| by {
      LeadingWhitespaceOf(run, rest);
    }
    assert s[|run|..] == rest;
  }

  lemma {:induction false} LeadingWhitespaceOf(run: string, rest: string)
    requires forall i :: 0 <= i < |run| ==> IsWhitespace(run[i])
    requires |rest| == 0 || !IsWhitespace(rest[0])
    ensures LeadingWhitespace(run + rest) == |run|
  {
    if |run| > 0 {
      LeadingWhitespaceOf(run[1..], rest);
      assert (run + rest)[1..] == run[1..] + rest;
    } else {
      assert run + rest == rest;
    }
  }

  /** The download name: the title lower-cased, whitespace runs replaced by `_`, and
      `.csv` appended. */
  function DownloadName(title: string): (name: string)
    ensures EndsWith(name, ".csv")
    ensures forall i :: 0 <= i < |name| ==> !IsWhitespace(name[i]) && !IsUpper(name[i])
  {
    var lower := ToLower(title);
    LowerStaysLower(lower);
    UnderscoreRuns(lower) + ".csv"
  }

  /** Replacing whitespace runs introduces no upper-case letter. */
  lemma {:induction false} LowerStaysLower(s: string)
    requires forall i :: 0 <= i < |s| ==> !IsUpper(s[i])
    ensures forall i :: 0 <= i < |UnderscoreRuns(s)| ==> !IsUpper(UnderscoreRuns(s)[i])
    decreases |s|
  {
    if |s| > 0 {
      if IsWhitespace(s[0]) {
        LowerStaysLower(s[LeadingWhitespace(s)..]);
      } else {
        LowerStaysLower(s[1..]);
      }
    }
  }

  /** A title already in lower case and free of whitespace is kept as is. */
  lemma DownloadNameOfPlainTitle(title: string)
    requires forall i :: 0 <= i < |title| ==> !IsWhitespace(title[i]) && !IsUpper(title[i])
    ensures DownloadName(title) == title + ".csv"
  {
    assert ToLower(title) == title;
    UnderscoreRunsNoWhitespace(title);
  }

  /* ---------------- applied-fix badges ---------------- */

  /** One badge: a kind and its count. */
  datatype Badge = Badge(kind: ResultType, count: nat)

  /** One badge per distinct kind, in order of first occurrence. */
  function Badges(results: seq<CleaningResult>): (badges: seq<Badge>)
    ensures |badges| == |DistinctKinds(results)|
    ensures forall i :: 0 <= i < |badges| ==>
      badges[i].kind == DistinctKinds(results)[i] && badges[i].count == CountOf(results, badges[i].kind)
  {
    var kinds := DistinctKinds(results);
    seq(|kinds|, i requires 0 <= i < |kinds| => Badge(kinds[i], CountOf(results, kinds[i])))
  }

  /** Badge total. */
  function BadgeTotal(badges: seq<Badge>): nat {
    if |badges| == 0 then 0 else BadgeTotal(badges[..|badges| - 1]) + badges[|badges| - 1].count
  }

  lemma {:induction false} BadgeTotalIsSum(results: seq<CleaningResult>, n: nat)
    requires n <= |DistinctKinds(results)|
    ensures BadgeTotal(Badges(results)[..n]) == SumCounts(results, DistinctKinds(results)[..n])
  {
    if n > 0 {
      BadgeTotalIsSum(results, n - 1);
      assert Badges(results)[..n][..n - 1] == Badges(results)[..n - 1];
      assert DistinctKinds(results)[..n][..n - 1] == DistinctKinds(results)[..n - 1];
    }
  }

  /** There is a badge for each kind present and for no other. */
  lemma BadgesCoverKinds(results: seq<CleaningResult>, badges: seq<Badge>)
    requires badges == Badges(results)
    ensures forall j :: 0 <= j < |results| ==> exists i :: 0 <= i < |badges| && badges[i].kind == results[j].kind
    ensures forall i :: 0 <= i < |badges| ==> exists j :: 0 <= j < |results| && results[j].kind == badges[i].kind
  {
    var kinds := DistinctKinds(results);
    forall j | 0 <= j < |results|
      ensures exists i :: 0 <= i < |badges| && badges[i].kind == results[j].kind
    {
      assert results[j].kind in kinds;
      var i :| 0 <= i < |kinds| && kinds[i] == results[j].kind;
      assert badges[i].kind == results[j].kind;
    }
    forall i | 0 <= i < |badges|
      ensures exists j :: 0 <= j < |results| && results[j].kind == badges[i].kind
    {
      assert kinds[i] in kinds;
    }
  }

  /** Each badge counts at least one result, and the badges together count every
      result once. */
  lemma BadgesCountAll(results: seq<CleaningResult>, badges: seq<Badge>)
    requires badges == Badges(results)
    ensures forall i :: 0 <= i < |badges| ==> badges[i].count >= 1
    ensures BadgeTotal(badges) == |results|
  {
    var kinds := DistinctKinds(results);
    forall i | 0 <= i < |badges| ensures badges[i].count >= 1 {
      assert kinds[i] in kinds;
    }
    BadgeTotalIsSum(results, |kinds|);
    assert badges[..|kinds|] == badges;
    assert kinds[..|kinds|] == kinds;
    CountsPartition(results);
  }
}
