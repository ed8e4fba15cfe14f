/**
 * The error finder of the file view: a fixed list of three reported errors, a
 * line-by-line repair of the text, and the flags that decide which buttons show.
 */
module ErrorDetection {
  import opened Text

  /** One reported error; `line` counts from 1. */
  datatype DetectedError = DetectedError(line: int, message: string, kind: string, suggestion: string)

  /** What detection reports, whatever the text. */
  const MockErrors: seq<DetectedError> := [
    DetectedError(3, "Missing comma after value", "Syntax Error", "Add comma after 'value'"),
    DetectedError(7, "Trailing whitespace detected", "Format Error", "Remove trailing spaces"),
    DetectedError(12, "Inconsistent quote style", "Style Error", "Use consistent quote style")
  ]

  /** The reported errors sit on lines 3, 7 and 12, one each. */
  lemma MockErrorLines()
    ensures |MockErrors| == 3
    ensures (set e | e in MockErrors :: e.line) == {3, 7, 12}
  {
    assert MockErrors[0].line == 3 && MockErrors[1].line == 7 && MockErrors[2].line == 12;
  }

  /** The repair of the line at 0-based position `index`: a comma after line 2,
      no trailing whitespace on line 6, double quotes for single quotes on line 11. */
  function FixLine(index: nat, line: string): (fixed: string)
    ensures index != 2 && index != 6 && index != 11 ==> fixed == line
    ensures index == 2 ==> fixed == line + ","
    ensures index == 6 ==> IsPrefix(fixed, line) && (fixed == [] || !IsWhitespace(fixed[|fixed| - 1]))
    ensures index == 6 ==> forall i :: |fixed| <= i < |line| ==> IsWhitespace(line[i])
    ensures index == 11 ==> '\'' !in fixed && |fixed| == |line|
    ensures index == 11 ==> forall i :: 0 <= i < |line| ==> fixed[i] == if line[i] == '\'' then '"' else line[i]
    ensures '\n' !in line ==> '\n' !in fixed
  {
    if index == 2 then line + ","
    else if index == 6 then TrimEndOf(line)
    else if index == 11 then QuotesFixed(line)
    else line
  }

  /** `line.trimEnd()`, with what it promises. */
  function TrimEndOf(line: string): (r: string)
    ensures IsPrefix(r, line)
    ensures r == [] || !IsWhitespace(r[|r| - 1])
    ensures forall i :: |r| <= i < |line| ==> IsWhitespace(line[i])
  {
    TrimEnd(line)
  }

  /** `line.replace(/'/g, '"')`, with what it promises. */
  function QuotesFixed(line: string): (r: string)
    ensures '\'' !in r && |r| == |line|
    ensures forall i :: 0 <= i < |line| ==> r[i] == if line[i] == '\'' then '"' else line[i]
    ensures forall c :: c != '\'' && c != '"' ==> (c in r <==> c in line)
  {
    ReplaceCharRemoves(line, '\'', "\"");
    ReplaceCharPointwise(line, '\'', '"');
    forall c | c != '\'' && c != '"' ensures c in ReplaceAll(line, "'", "\"") <==> c in line {
      ReplaceCharKeeps(line, '\'', "\"", c);
    }
    ReplaceAll(line, "'", "\"")
  }

  /** The `map` of `fixErrors` over the lines. */
  function FixedLines(lines: seq<string>): (out: seq<string>)
    ensures |out| == |lines|
    ensures forall i :: 0 <= i < |lines| ==> out[i] == FixLine(i, lines[i])
  {
    seq(|lines|, i requires 0 <= i < |lines| => FixLine(i, lines[i]))
  }

  /** The corrected text: split on `\n`, repair each line, join again. */
  function FixContent(content: string): string {
    Join(FixedLines(Split(content, '\n')), '\n')
  }

  /** Splitting the corrected text gives the repaired lines of the original. */
  lemma FixedContentLines(content: string)
    ensures Split(FixContent(content), '\n') == FixedLines(Split(content, '\n'))
  {
    var lines := Split(content, '\n');
    var fixed := FixedLines(lines);
    assert NoneContains(fixed, '\n');
    SplitJoin(fixed, '\n');
  }

  /** The repair keeps the number of lines and changes only lines 2, 6 and 11. */
  lemma FixKeepsOtherLines(content: string)
    ensures |Split(FixContent(content), '\n')| == |Split(content, '\n')|
    ensures forall i :: 0 <= i < |Split(content, '\n')| && i != 2 && i != 6 && i != 11 ==>
      Split(FixContent(content), '\n')[i] == Split(content, '\n')[i]
  {
    FixedContentLines(content);
  }

  /** A text of fewer than three lines comes back unchanged. */
  lemma ShortContentUnchanged(content: string)
    requires |Split(content, '\n')| < 3
    ensures FixContent(content) == content
  {
    var lines := Split(content, '\n');
    assert FixedLines(lines) == lines;
    JoinSplit(content, '\n');
  }

  /** Repairing line 6 a second time changes nothing more. */
  lemma TrimLineIdempotent(line: string)
    ensures FixLine(6, FixLine(6, line)) == FixLine(6, line)
  {
    TrimEndIdempotent(line);
  }

  /** Every line the repair changes is the line before a reported one: the repair
      and the report agree once 1-based numbers are turned into positions. */
  lemma ChangedLinesReported(index: nat, line: string)
    requires FixLine(index, line) != line
    ensures exists e :: e in MockErrors && e.line - 1 == index
  {
    if index == 2 {
      assert MockErrors[0] in MockErrors;
    } else if index == 6 {
      assert MockErrors[1] in MockErrors;
    } else {
      assert MockErrors[2] in MockErrors;
    }
  }

  /** The downloaded file's name. */
  function CorrectedName(fileName: string): (name: string)
    ensures IsPrefix("corrected_", name) && name[|"corrected_"|..] == fileName
  {
    "corrected_" + fileName
  }

  /** The component's state. */
  class ErrorDetector {
    var errors: seq<DetectedError>
    var hasDetectedErrors: bool
    var fixedContent: string
    var fixedErrors: seq<DetectedError>
    var hasFixedErrors: bool

    /** Errors are the reported ones once detection ran and none before; a fix
        comes after a detection and keeps a copy of the errors it resolved. */
    ghost predicate Valid()
      reads this
    {
      && (hasDetectedErrors ==> errors == MockErrors)
      && (!hasDetectedErrors ==> errors == [])
      && (hasFixedErrors ==> hasDetectedErrors && fixedErrors == errors)
      && (!hasFixedErrors ==> fixedContent == "" && fixedErrors == [])
    }

    constructor ()
      ensures Valid()
      ensures errors == [] && fixedErrors == [] && fixedContent == ""
      ensures !hasDetectedErrors && !hasFixedErrors
    {
      errors := [];
      hasDetectedErrors := false;
      fixedContent := "";
      fixedErrors := [];
      hasFixedErrors := false;
    }

    /** The "Resolve Errors" button shows. */
    predicate CanResolve()
      reads this
    {
      hasDetectedErrors && |errors| > 0
    }

    /** The "Download Fixed File" button shows. */
    predicate CanDownload()
      reads this
    {
      hasFixedErrors
    }

    /** `detectErrors` once its delay has passed. Running it again gives the same
        state. */
    method DetectErrors()
      requires Valid()
      modifies this
      ensures Valid() && CanResolve()
      ensures errors == MockErrors && hasDetectedErrors
      ensures fixedContent == old(fixedContent) && fixedErrors == old(fixedErrors)
      ensures hasFixedErrors == old(hasFixedErrors)
    {
      errors := MockErrors;
      hasDetectedErrors := true;
    }

    /** `fixErrors` once its delay has passed, on the text the component shows. */
    method FixErrors(content: string)
      requires Valid() && CanResolve()
      modifies this
      ensures Valid() && CanDownload() && CanResolve()
      ensures fixedContent == FixContent(content) && fixedErrors == old(errors)
      ensures errors == old(errors) && hasDetectedErrors == old(hasDetectedErrors)
    {
      fixedContent := FixContent(content);
      fixedErrors := errors;
      hasFixedErrors := true;
    }

    /** `downloadCorrectedFile`: the name and the text of the download. */
    method DownloadCorrectedFile(fileName: string) returns (name: string, body: string)
      requires CanDownload()
      ensures name == CorrectedName(fileName) && body == fixedContent
    {
      name := CorrectedName(fileName);
      body := fixedContent;
    }
  }
}
