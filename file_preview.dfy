/**
 * The preview of an uploaded text file: one numbered row per line, the rows some
 * error names marked, and a description counting the errors.
 */
module FilePreview {
  import opened Text
  import opened ErrorDetection
  import opened FileComparison

  /** `errors.some(error => error.line === lineIndex + 1)`. */
  predicate LineHasError(errors: seq<DetectedError>, lineIndex: nat) {
    exists k :: 0 <= k < |errors| && errors[k].line == lineIndex + 1
  }

  /** What `getLineClassName` picks between. */
  datatype LineStyle = Plain | Flagged

  /** `getLineClassName(lineIndex)`. */
  function LineClass(errors: seq<DetectedError>, lineIndex: nat): (style: LineStyle)
    ensures style == Flagged <==> LineHasError(errors, lineIndex)
  {
    if LineHasError(errors, lineIndex) then Flagged else Plain
  }

  /** The preview's rows. */
  function PreviewRows(content: string, errors: seq<DetectedError>): (rows: seq<LineRow>)
    ensures |rows| == |Split(content, '\n')|
    ensures forall i :: 0 <= i < |rows| ==>
      rows[i].number == i + 1 && rows[i].text == Split(content, '\n')[i]
      && (rows[i].highlighted <==> LineClass(errors, i) == Flagged)
  {
    var lines := Split(content, '\n');
    seq(|lines|, i requires 0 <= i < |lines| => LineRow(i + 1, lines[i], LineClass(errors, i) == Flagged))
  }

  /** The card description. */
  function Description(errors: seq<DetectedError>): (text: string)
    ensures errors == [] ==> text == "File content preview"
    ensures |errors| == 1 ==> text == "1 error detected"
    ensures |errors| > 1 ==> text == NatToString(|errors|) + " errors detected"
  {
    if |errors| > 0 then NatToString(|errors|) + " error" + (if |errors| != 1 then "s" else "") + " detected"
    else "File content preview"
  }

  /** The preview marks exactly the rows the comparison view marks for the same
      errors. */
  lemma PreviewMatchesComparison(content: string, errors: seq<DetectedError>)
    ensures PreviewRows(content, errors) == Pane(content, ChangedLines(errors))
  {
    var rows := PreviewRows(content, errors);
    var pane := Pane(content, ChangedLines(errors));
    forall i | 0 <= i < |rows| ensures rows[i] == pane[i] {
      if LineHasError(errors, i) {
        var k :| 0 <= k < |errors| && errors[k].line == i + 1;
        assert errors[k].line - 1 == i;
      }
    }
  }

  /** Without errors no row is marked. */
  lemma NoErrorsNoHighlight(content: string)
    ensures forall i :: 0 <= i < |PreviewRows(content, [])| ==> !PreviewRows(content, [])[i].highlighted
  {
    var rows := PreviewRows(content, []);
    forall i | 0 <= i < |rows| ensures !rows[i].highlighted {
      assert !LineHasError([], i);
    }
  }
}
