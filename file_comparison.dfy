/**
 * The before/after view of a repaired text file: which line positions are marked
 * as changed, which panes a slider value shows, and the numbered, highlighted
 * rows of each pane.
 */
module FileComparison {
  import opened Text
  import opened ErrorDetection

  /** The 0-based positions of the lines the errors name. */
  ghost function ChangedLines(errors: seq<DetectedError>): set<int> {
    set k | 0 <= k < |errors| :: errors[k].line - 1
  }

  /** `getChangedLines()`: adds `error.line - 1` for each error to a fresh set. */
  method GetChangedLines(errors: seq<DetectedError>) returns (changed: set<int>)
    ensures changed == ChangedLines(errors)
    ensures forall i :: i in changed <==> exists k :: 0 <= k < |errors| && errors[k].line == i + 1
  {
    changed := {};
    for k := 0 to |errors|
      invariant changed == ChangedLines(errors[..k])
    {
      assert errors[..k + 1] == errors[..k] + [errors[k]];
      changed := changed + {errors[k].line - 1};
    }
    assert errors[..|errors|] == errors;
  }

  /** Which panes show. */
  datatype View = OriginalOnly | CorrectedOnly | SideBySide

  /** The thresholds of `renderContent`. */
  function ViewFor(mode: int): (v: View)
    ensures v == OriginalOnly <==> mode <= 25
    ensures v == CorrectedOnly <==> mode >= 75
    ensures v == SideBySide <==> 25 < mode < 75
  {
    if mode <= 25 then OriginalOnly
    else if mode >= 75 then CorrectedOnly
    else SideBySide
  }

  /** One displayed line: its number, its text and whether it is marked. */
  datatype LineRow = LineRow(number: nat, text: string, highlighted: bool)

  /** A pane: one row per `\n`-separated line, numbered from 1, marked when its
      position is in `changed`. */
  function Pane(content: string, changed: set<int>): (rows: seq<LineRow>)
    ensures |rows| == |Split(content, '\n')|
    ensures forall i :: 0 <= i < |rows| ==>
      rows[i].number == i + 1 && rows[i].text == Split(content, '\n')[i] && (rows[i].highlighted <==> i in changed)
  {
    var lines := Split(content, '\n');
    seq(|lines|, i requires 0 <= i < |lines| => LineRow(i + 1, lines[i], i in changed))
  }

  /** The panes on screen for a slider value, left to right. */
  function Screen(mode: int, original: string, corrected: string, changed: set<int>): (panes: seq<seq<LineRow>>)
    ensures ViewFor(mode) == OriginalOnly ==> panes == [Pane(original, changed)]
    ensures ViewFor(mode) == CorrectedOnly ==> panes == [Pane(corrected, changed)]
    ensures ViewFor(mode) == SideBySide ==> panes == [Pane(original, changed), Pane(corrected, changed)]
  {
    match ViewFor(mode)
    case OriginalOnly => [Pane(original, changed)]
    case CorrectedOnly => [Pane(corrected, changed)]
    case SideBySide => [Pane(original, changed), Pane(corrected, changed)]
  }

  /** A marked row is the line some error names, and an error whose line number
      lies outside the text marks no row. */
  lemma HighlightsAreErrorLines(content: string, errors: seq<DetectedError>)
    ensures var rows := Pane(content, ChangedLines(errors));
      && (forall i :: 0 <= i < |rows| && rows[i].highlighted ==>
            exists k :: 0 <= k < |errors| && errors[k].line == rows[i].number)
      && (forall k :: 0 <= k < |errors| && !(1 <= errors[k].line <= |rows|) ==>
            forall i :: 0 <= i < |rows| && rows[i].highlighted ==> rows[i].number != errors[k].line)
  {
  }

  /** With the reported errors, every line the repair changes is marked in both
      panes, and the two panes have the same number of rows. */
  lemma RepairIsHighlighted(content: string)
    ensures var original := Pane(content, ChangedLines(MockErrors));
      var corrected := Pane(FixContent(content), ChangedLines(MockErrors));
      && |original| == |corrected|
      && forall i :: 0 <= i < |original| && original[i].text != corrected[i].text ==>
           original[i].highlighted && corrected[i].highlighted
  {
    FixedContentLines(content);
    var lines := Split(content, '\n');
    forall i | 0 <= i < |lines| && FixLine(i, lines[i]) != lines[i]
      ensures i in ChangedLines(MockErrors)
    {
      ChangedLinesReported(i, lines[i]);
      var e :| e in MockErrors && e.line - 1 == i;
      var k :| 0 <= k < |MockErrors| && MockErrors[k] == e;
    }
  }
}
