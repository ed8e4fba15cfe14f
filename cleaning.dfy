/**
 * The cleaning run of `src/components/DataCleaningPipeline.tsx`: six steps over a
 * copy of the records, of which step 0 fixes typos, step 1 normalises labels,
 * step 2 fills missing values and step 4 may append one synthetic record; steps
 * 3 and 5 do nothing. Every change is logged as a `CleaningResult`.
 *
 * The random draws become oracles: `gate(step, row, key)` stands for the draw that
 * lets a field be looked at, `augment` for the draw that lets step 4 fire, and
 * `stamp` for `Date.now()`.
 */
module Cleaning {
  import opened Text
  import opened Records

  /** The number of steps: typo detection, label normalisation, missing-value
      filling, duplicate removal, synthetic samples and validation, in that order. */
  const StepCount: nat := 6

  const TypoConfidence: nat := 950
  const InconsistentConfidence: nat := 880
  const MissingConfidence: nat := 750
  const AugmentedConfidence: nat := 820

  /* ---------------- the field rules ---------------- */

  /** Step 0: `teh` becomes `the`, then `recieve` becomes `receive`. */
  function TypoFix(s: string): string {
    ReplaceAll(ReplaceAll(s, "teh", "the"), "recieve", "receive")
  }

  /** Text free of both misspellings is left alone, so step 0 logs nothing for it. */
  lemma TypoFixOfCleanText(s: string)
    requires !Contains(s, "teh") && !Contains(s, "recieve")
    ensures TypoFix(s) == s
  {
    ReplaceAbsent(s, "teh", "the");
    ReplaceAbsent(s, "recieve", "receive");
  }

  /** Step 1: the label test on the lower-cased value; each later test overrides an
      earlier one. */
  function NormalizeLabel(s: string): (r: string)
    ensures var l := ToLower(s);
      && (Contains(l, "no") || Contains(l, "false") ==> r == "No")
      && (!(Contains(l, "no") || Contains(l, "false")) && (Contains(l, "yes") || Contains(l, "true")) ==> r == "Yes")
      && (!(Contains(l, "no") || Contains(l, "false")) && !(Contains(l, "yes") || Contains(l, "true")) && Contains(l, "male")
          ==> r == if Contains(l, "fe") then "Female" else "Male")
      && (!(Contains(l, "no") || Contains(l, "false")) && !(Contains(l, "yes") || Contains(l, "true")) && !Contains(l, "male")
          ==> r == s)
  {
    var l := ToLower(s);
    var byGender := if Contains(l, "male") then (if Contains(l, "fe") then "Female" else "Male") else s;
    var byYes := if Contains(l, "yes") || Contains(l, "true") then "Yes" else byGender;
    if Contains(l, "no") || Contains(l, "false") then "No" else byYes
  }

  /** Step 2: the fill chosen by the lower-cased field name; each later test
      overrides an earlier one. */
  function FillValue(key: string): (r: string)
    ensures var l := ToLower(key);
      && (Contains(l, "status") ==> r == "Active")
      && (!Contains(l, "status") && Contains(l, "score") ==> r == "0")
      && (!Contains(l, "status") && !Contains(l, "score") && Contains(l, "age") ==> r == "25")
      && (!Contains(l, "status") && !Contains(l, "score") && !Contains(l, "age") ==> r == "Unknown")
  {
    var l := ToLower(key);
    var byAge := if Contains(l, "age") then "25" else "Unknown";
    var byScore := if Contains(l, "score") then "0" else byAge;
    if Contains(l, "status") then "Active" else byScore
  }

  /** `null`, `undefined` or the empty string. */
  predicate IsMissing(v: Value) {
    v == Null || v == Undefined || v == Str("")
  }

  /** A field change and its ledger entry. */
  datatype Edit = Edit(value: Value, result: CleaningResult)

  /** What step `step` does to field `key` holding `v` when its draw `fire` lets it
      be looked at. */
  function FieldEdit(step: nat, key: string, v: Value, fire: bool): (e: Option<Edit>)
    ensures e.Some? ==> e.value.value != v && e.value.result.field == key
    ensures e.Some? ==> fire && step <= 2
    ensures e.Some? ==> e.value.result.kind == StepKind(step) && e.value.result.confidence == ConfidenceOf(StepKind(step))
    ensures fire && step == 0 && v.Str? && TypoFix(v.s) != v.s ==>
      e.Some? && e.value.value == Str(TypoFix(v.s)) && e.value.result == CleaningResult(Typo, key, v.s, TypoFix(v.s), TypoConfidence)
    ensures fire && step == 1 && v.Str? && NormalizeLabel(v.s) != v.s ==>
      e.Some? && e.value.value == Str(NormalizeLabel(v.s))
      && e.value.result == CleaningResult(Inconsistent, key, v.s, NormalizeLabel(v.s), InconsistentConfidence)
    ensures fire && step == 2 && IsMissing(v) ==>
      e.Some? && e.value.value == Str(FillValue(key)) && e.value.result == CleaningResult(Missing, key, "NULL", FillValue(key), MissingConfidence)
  {
    if !fire then None
    else if step == 0 && v.Str? && TypoFix(v.s) != v.s then
      Some(Edit(Str(TypoFix(v.s)), CleaningResult(Typo, key, v.s, TypoFix(v.s), TypoConfidence)))
    else if step == 1 && v.Str? && NormalizeLabel(v.s) != v.s then
      Some(Edit(Str(NormalizeLabel(v.s)), CleaningResult(Inconsistent, key, v.s, NormalizeLabel(v.s), InconsistentConfidence)))
    else if step == 2 && IsMissing(v) then
      Some(Edit(Str(FillValue(key)), CleaningResult(Missing, key, "NULL", FillValue(key), MissingConfidence)))
    else None
  }

  /* ---------------- one record, one step ---------------- */

  /** A record after a step, and the entries logged for it. */
  datatype Pass = Pass(row: Row, log: seq<CleaningResult>)

  /** The copy of `row` (at position `r`) after step `step` has visited its first
      `n` keys. Each field is read from the record as it was before the step. */
  function RowPass(step: nat, r: nat, row: Row, gate: (nat, nat, string) -> bool, n: nat): (p: Pass)
    requires n <= |row.keys|
    ensures p.row.keys == row.keys
    ensures |p.log| <= n
  {
    if n == 0 then Pass(row, [])
    else
      var prev := RowPass(step, r, row, gate, n - 1);
      var key := row.keys[n - 1];
      match FieldEdit(step, key, row.Get(key), gate(step, r, key))
      case None => prev
      case Some(e) => Pass(prev.row.Set(key, e.value), prev.log + [e.result])
  }

  /** The records after step `step` has mapped the first `n` of them, and the entries
      logged so far. */
  function StepPass(step: nat, rows: seq<Row>, gate: (nat, nat, string) -> bool, n: nat): (p: Run)
    requires n <= |rows|
    ensures |p.rows| == n
    ensures forall i :: 0 <= i < n ==> p.rows[i] == RowPass(step, i, rows[i], gate, |rows[i].keys|).row
  {
    if n == 0 then Run([], [])
    else
      var prev := StepPass(step, rows, gate, n - 1);
      var p := RowPass(step, n - 1, rows[n - 1], gate, |rows[n - 1].keys|);
      Run(prev.rows + [p.row], prev.results + p.log)
  }

  /* ---------------- augmentation ---------------- */

  /** `synthetic_${value}`. */
  function SyntheticText(v: Value): string {
    "synthetic_" + Render(v)
  }

  /** The copy of `first` after its first `n` keys other than `id` are prefixed. */
  function Prefixed(first: Row, n: nat): (r: Row)
    requires n <= |first.keys|
    ensures r.keys == first.keys
  {
    if n == 0 then first
    else
      var prev := Prefixed(first, n - 1);
      var key := first.keys[n - 1];
      if key != "id" then prev.Set(key, Str(SyntheticText(prev.Get(key)))) else prev
  }

  /** The synthetic record: a copy of the first record (an empty object when there is
      none) with every field but `id` prefixed, and `id` set to `synthetic_<stamp>`. */
  function Synthetic(rows: seq<Row>, stamp: nat): Row {
    var first := if |rows| == 0 then Row([], map[]) else rows[0];
    Prefixed(first, |first.keys|).Set("id", Str("synthetic_" + NatToString(stamp)))
  }

  /** The one entry step 4 logs. */
  const AugmentResult: CleaningResult :=
    CleaningResult(Augmented, EntireRow, "N/A", "Generated synthetic sample", AugmentedConfidence)

  /* ---------------- the run ---------------- */

  /** The records and the ledger. */
  datatype Run = Run(rows: seq<Row>, results: seq<CleaningResult>)

  /** One step of the run. */
  function Step(step: nat, run: Run, gate: (nat, nat, string) -> bool, augment: bool, stamp: nat): Run {
    if step <= 2 then
      var p := StepPass(step, run.rows, gate, |run.rows|);
      Run(p.rows, run.results + p.results)
    else if step == 4 && augment then
      Run(run.rows + [Synthetic(run.rows, stamp)], run.results + [AugmentResult])
    else run
  }

  /** Steps 0 to 2 keep the number of records and only append to the ledger; step 4
      appends the synthetic record and its entry when augmentation fires; every other
      step changes nothing. */
  lemma StepCases(step: nat, run: Run, gate: (nat, nat, string) -> bool, augment: bool, stamp: nat)
    ensures var next := Step(step, run, gate, augment, stamp);
      && (step <= 2 ==> |next.rows| == |run.rows| && next.results[..|run.results|] == run.results)
      && (step == 4 && augment ==>
            next.rows == run.rows + [Synthetic(run.rows, stamp)] && next.results == run.results + [AugmentResult])
      && (step > 2 && !(step == 4 && augment) ==> next == run)
  {
    if step <= 2 {
      var p := StepPass(step, run.rows, gate, |run.rows|);
      assert (run.results + p.results)[..|run.results|] == run.results;
    }
  }

  /** The run after its first `n` steps, starting from a copy of `data` and an empty
      ledger. */
  function RunSteps(data: seq<Row>, gate: (nat, nat, string) -> bool, augment: bool, stamp: nat, n: nat): Run
  {
    if n == 0 then Run(data, [])
    else Step(n - 1, RunSteps(data, gate, augment, stamp, n - 1), gate, augment, stamp)
  }

  /** What `simulateDataCleaning` hands to `onCleaningComplete`. */
  function Pipeline(data: seq<Row>, gate: (nat, nat, string) -> bool, augment: bool, stamp: nat): Run {
    RunSteps(data, gate, augment, stamp, StepCount)
  }

  /* ---------------- the imperative run ---------------- */

  /** `Object.keys(row).forEach(...)` inside the `map` of one step. */
  method CleanRow(step: nat, r: nat, row: Row, gate: (nat, nat, string) -> bool) returns (newRow: Row, log: seq<CleaningResult>)
    ensures Pass(newRow, log) == RowPass(step, r, row, gate, |row.keys|)
  {
    newRow := row;
    log := [];
    for k := 0 to |row.keys|
      invariant Pass(newRow, log) == RowPass(step, r, row, gate, k)
    {
      var key := row.keys[k];
      var edit := FieldEdit(step, key, row.Get(key), gate(step, r, key));
      if edit.Some? {
        log := log + [edit.value.result];
        newRow := newRow.Set(key, edit.value.value);
      }
    }
  }

  /** `cleanedData = cleanedData.map(...)` for one of steps 0 to 2, with the entries
      pushed in record order. */
  method CleanRows(step: nat, rows: seq<Row>, gate: (nat, nat, string) -> bool) returns (out: seq<Row>, log: seq<CleaningResult>)
    ensures Run(out, log) == StepPass(step, rows, gate, |rows|)
  {
    out := [];
    log := [];
    for i := 0 to |rows|
      invariant Run(out, log) == StepPass(step, rows, gate, i)
    {
      var newRow, rowLog := CleanRow(step, i, rows[i], gate);
      out := out + [newRow];
      log := log + rowLog;
    }
  }

  /** Step 4's copy of the first record with its fields prefixed and its new `id`. */
  method MakeSynthetic(rows: seq<Row>, stamp: nat) returns (row: Row)
    ensures row == Synthetic(rows, stamp)
  {
    var first := if |rows| == 0 then Row([], map[]) else rows[0];
    row := first;
    for k := 0 to |first.keys|
      invariant row == Prefixed(first, k)
    {
      var key := first.keys[k];
      if key != "id" {
        row := row.Set(key, Str(SyntheticText(row.Get(key))));
      }
    }
    row := row.Set("id", Str("synthetic_" + NatToString(stamp)));
  }

  /** The `switch (i)` of the run: steps 0 to 2 map the records, step 4 may append
      the synthetic record, and the other steps have no case. */
  method RunStep(i: nat, rows: seq<Row>, results: seq<CleaningResult>, gate: (nat, nat, string) -> bool, augment: bool, stamp: nat)
    returns (rows': seq<Row>, results': seq<CleaningResult>)
    ensures Run(rows', results') == Step(i, Run(rows, results), gate, augment, stamp)
  {
    rows', results' := rows, results;
    if i == 0 || i == 1 || i == 2 {
      var log;
      rows', log := CleanRows(i, rows, gate);
      results' := results + log;
    } else if i == 4 {
      if augment {
        var synthetic := MakeSynthetic(rows, stamp);
        results' := results + [AugmentResult];
        rows' := rows + [synthetic];
      }
    }
  }

  /** What the step line shows: nothing yet, the name of step `i`, or
      "Cleaning completed!". */
  datatype StepStatus = NotStarted | Running(i: nat) | Completed

  /** The component's progress display. */
  class CleaningPipeline {
    var isProcessing: bool
    /** Steps completed; the bar shows `progress / 6` of the way. */
    var progress: nat
    var currentStep: StepStatus

    constructor ()
      ensures !isProcessing && progress == 0 && currentStep == NotStarted
    {
      isProcessing := false;
      progress := 0;
      currentStep := NotStarted;
    }

    /** `simulateDataCleaning`: runs the six steps over a copy of `data`, reporting
        progress after each, and returns what goes to `onCleaningComplete`; `trace`
        lists the progress values in the order they were set. */
    method SimulateDataCleaning(data: seq<Row>, gate: (nat, nat, string) -> bool, augment: bool, stamp: nat)
      returns (cleaned: seq<Row>, results: seq<CleaningResult>, trace: seq<nat>)
      modifies this
      ensures Run(cleaned, results) == Pipeline(data, gate, augment, stamp)
      ensures trace == ProgressTrace(StepCount)
      ensures !isProcessing && progress == StepCount && currentStep == Completed
    {
      isProcessing := true;
      progress := 0;
      trace := [0];
      results := [];
      cleaned := data;
      for i := 0 to StepCount
        invariant Run(cleaned, results) == RunSteps(data, gate, augment, stamp, i)
        invariant progress == i && trace == ProgressTrace(i)
      {
        currentStep := Running(i);
        cleaned, results := RunStep(i, cleaned, results, gate, augment, stamp);
        progress := i + 1;
        trace := trace + [progress];
      }
      isProcessing := false;
      currentStep := Completed;
    }
  }

  /** The progress values set up to step `n`: 0, then one more after each step. */
  function ProgressTrace(n: nat): (t: seq<nat>)
    ensures |t| == n + 1
    ensures forall i :: 0 <= i < |t| ==> t[i] == i
  {
    if n == 0 then [0] else ProgressTrace(n - 1) + [n]
  }

  /* ---------------- what one step does to one record ---------------- */

  /** The edit step `step` makes to the `j`-th key of `row`, if any. */
  function EditAt(step: nat, r: nat, row: Row, gate: (nat, nat, string) -> bool, j: nat): Option<Edit>
    requires j < |row.keys|
  {
    FieldEdit(step, row.keys[j], row.Get(row.keys[j]), gate(step, r, row.keys[j]))
  }

  /** The value a field ends with: the edit's value, or the value it had. */
  function ValueAfter(e: Option<Edit>, v: Value): Value {
    if e.Some? then e.value.value else v
  }

  /** A step keeps a record well formed. */
  lemma {:induction false} RowPassValid(step: nat, r: nat, row: Row, gate: (nat, nat, string) -> bool, n: nat)
    requires row.Valid() && n <= |row.keys|
    ensures RowPass(step, r, row, gate, n).row.Valid()
  {
    if n > 0 {
      RowPassValid(step, r, row, gate, n - 1);
      var key := row.keys[n - 1];
      var prev := RowPass(step, r, row, gate, n - 1);
      var e := FieldEdit(step, key, row.Get(key), gate(step, r, key));
      assert RowPass(step, r, row, gate, n).row == if e.Some? then prev.row.Set(key, e.value.value) else prev.row;
      if e.Some? {
        SetValid(prev.row, key, e.value.value);
      }
    }
  }

  /** After the first `n` keys, a visited field holds its edit's value and the
      others hold what they had. */
  lemma {:induction false} RowPassGet(step: nat, r: nat, row: Row, gate: (nat, nat, string) -> bool, n: nat, j: nat)
    requires row.Valid() && n <= |row.keys| && j < |row.keys|
    ensures RowPass(step, r, row, gate, n).row.Get(row.keys[j]) ==
      if j < n then ValueAfter(EditAt(step, r, row, gate, j), row.Get(row.keys[j])) else row.Get(row.keys[j])
  {
    if n > 0 {
      RowPassGet(step, r, row, gate, n - 1, j);
      var ed := EditAt(step, r, row, gate, n - 1);
      var prev := RowPass(step, r, row, gate, n - 1).row;
      assert RowPass(step, r, row, gate, n).row == if ed.Some? then prev.Set(row.keys[n - 1], ed.value.value) else prev;
      assert j != n - 1 ==> row.keys[j] != row.keys[n - 1];
    }
  }

  /** After the first `n` keys, each edit made has its entry in the log. */
  lemma {:induction false} RowPassLogged(step: nat, r: nat, row: Row, gate: (nat, nat, string) -> bool, n: nat)
    requires n <= |row.keys|
    ensures forall j :: 0 <= j < n && EditAt(step, r, row, gate, j).Some? ==>
      EditAt(step, r, row, gate, j).value.result in RowPass(step, r, row, gate, n).log
  {
    if n > 0 {
      RowPassLogged(step, r, row, gate, n - 1);
      var ed := EditAt(step, r, row, gate, n - 1);
      assert RowPass(step, r, row, gate, n).log ==
        if ed.Some? then RowPass(step, r, row, gate, n - 1).log + [ed.value.result] else RowPass(step, r, row, gate, n - 1).log;
    }
  }

  /** After the first `n` keys, every log entry is the entry of an edit made. */
  lemma {:induction false} RowPassLogSource(step: nat, r: nat, row: Row, gate: (nat, nat, string) -> bool, n: nat)
    requires n <= |row.keys|
    ensures forall e :: e in RowPass(step, r, row, gate, n).log ==>
      exists j :: 0 <= j < n && EditAt(step, r, row, gate, j).Some? && EditAt(step, r, row, gate, j).value.result == e
  {
    if n > 0 {
      RowPassLogSource(step, r, row, gate, n - 1);
      var prev := RowPass(step, r, row, gate, n - 1).log;
      var log := RowPass(step, r, row, gate, n).log;
      var ed := EditAt(step, r, row, gate, n - 1);
      assert log == if ed.Some? then prev + [ed.value.result] else prev;
      forall e | e in log
        ensures exists j :: 0 <= j < n && EditAt(step, r, row, gate, j).Some? && EditAt(step, r, row, gate, j).value.result == e
      {
        if e in prev {
          var j :| 0 <= j < n - 1 && EditAt(step, r, row, gate, j).Some? && EditAt(step, r, row, gate, j).value.result == e;
        } else {
          assert ed.Some? && ed.value.result == e;
        }
      }
    }
  }

  /** No two entries name the same field. */
  ghost predicate DistinctFields(log: seq<CleaningResult>) {
    forall a, b :: 0 <= a < b < |log| ==> log[a].field != log[b].field
  }

  /** In a well-formed record each field is looked at once, so no two entries of a
      step's log name the same field. */
  lemma {:induction false} RowPassFieldsDistinct(step: nat, r: nat, row: Row, gate: (nat, nat, string) -> bool, n: nat)
    requires row.Valid() && n <= |row.keys|
    ensures DistinctFields(RowPass(step, r, row, gate, n).log)
  {
    if n > 0 {
      RowPassFieldsDistinct(step, r, row, gate, n - 1);
      RowPassLogSource(step, r, row, gate, n - 1);
      var prev := RowPass(step, r, row, gate, n - 1).log;
      var ed := EditAt(step, r, row, gate, n - 1);
      assert RowPass(step, r, row, gate, n).log == if ed.Some? then prev + [ed.value.result] else prev;
      if ed.Some? {
        var log := prev + [ed.value.result];
        forall a, b | 0 <= a < b < |log| ensures log[a].field != log[b].field {
          assert log[a] == prev[a];
          if b == |prev| {
            assert log[b].field == row.keys[n - 1];
            assert prev[a] in prev;
            var j :| 0 <= j < n - 1 && EditAt(step, r, row, gate, j).Some? && EditAt(step, r, row, gate, j).value.result == prev[a];
            assert prev[a].field == row.keys[j] != row.keys[n - 1];
          } else {
            assert log[b] == prev[b];
            assert prev[a].field != prev[b].field;
          }
        }
        assert RowPass(step, r, row, gate, n).log == log;
      }
    }
  }

  /** Within one record, a field changes if and only if an entry is logged for it,
      and that entry names its value before and after. */
  lemma ChangedIffLogged(step: nat, r: nat, row: Row, gate: (nat, nat, string) -> bool, j: nat)
    requires row.Valid() && j < |row.keys|
    ensures var p := RowPass(step, r, row, gate, |row.keys|);
      var key := row.keys[j];
      && (p.row.Get(key) != row.Get(key) <==> exists e :: e in p.log && e.field == key)
      && (p.row.Get(key) != row.Get(key) ==>
            && EditAt(step, r, row, gate, j).Some?
            && EditAt(step, r, row, gate, j).value.result in p.log
            && p.row.Get(key) == EditAt(step, r, row, gate, j).value.value)
  {
    var p := RowPass(step, r, row, gate, |row.keys|);
    var key := row.keys[j];
    RowPassGet(step, r, row, gate, |row.keys|, j);
    RowPassLogged(step, r, row, gate, |row.keys|);
    RowPassLogSource(step, r, row, gate, |row.keys|);
    if e :| e in p.log && e.field == key {
      var j' :| 0 <= j' < |row.keys| && EditAt(step, r, row, gate, j').Some? && EditAt(step, r, row, gate, j').value.result == e;
      assert j' == j;
    }
  }

  /** Step 0 on one record: a field changes only if it is a string holding a
      misspelling, and then to its corrected text, with an entry naming the text
      before and after; every entry is such a typo entry with confidence 0.95. */
  lemma TypoStep(r: nat, row: Row, gate: (nat, nat, string) -> bool)
    requires row.Valid()
    ensures var p := RowPass(0, r, row, gate, |row.keys|);
      && (forall j :: 0 <= j < |row.keys| && p.row.Get(row.keys[j]) != row.Get(row.keys[j]) ==>
            var v := row.Get(row.keys[j]);
            && v.Str? && p.row.Get(row.keys[j]) == Str(TypoFix(v.s))
            && CleaningResult(Typo, row.keys[j], v.s, TypoFix(v.s), TypoConfidence) in p.log)
      && (forall e :: e in p.log ==>
            && e.kind == Typo && e.confidence == TypoConfidence && e.field in row.keys
            && row.Get(e.field) == Str(e.originalValue)
            && p.row.Get(e.field) == Str(e.cleanedValue)
            && e.cleanedValue == TypoFix(e.originalValue) != e.originalValue)
      && (forall j ::
            0 <= j < |row.keys| && gate(0, r, row.keys[j]) && row.Get(row.keys[j]).Str? && TypoFix(row.Get(row.keys[j]).s) != row.Get(row.keys[j]).s
            ==>
            var v := row.Get(row.keys[j]);
            && p.row.Get(row.keys[j]) == Str(TypoFix(v.s))
            && CleaningResult(Typo, row.keys[j], v.s, TypoFix(v.s), TypoConfidence) in p.log)
  {
    var p := RowPass(0, r, row, gate, |row.keys|);
    RowPassLogged(0, r, row, gate, |row.keys|);
    forall j | 0 <= j < |row.keys| && gate(0, r, row.keys[j]) && row.Get(row.keys[j]).Str?
        && TypoFix(row.Get(row.keys[j]).s) != row.Get(row.keys[j]).s
      ensures p.row.Get(row.keys[j]) == Str(TypoFix(row.Get(row.keys[j]).s))
    {
      RowPassGet(0, r, row, gate, |row.keys|, j);
    }
    forall j | 0 <= j < |row.keys| && p.row.Get(row.keys[j]) != row.Get(row.keys[j])
      ensures var v := row.Get(row.keys[j]);
        && v.Str? && p.row.Get(row.keys[j]) == Str(TypoFix(v.s))
        && CleaningResult(Typo, row.keys[j], v.s, TypoFix(v.s), TypoConfidence) in p.log
    {
      ChangedIffLogged(0, r, row, gate, j);
    }
    RowPassLogSource(0, r, row, gate, |row.keys|);
    forall e | e in p.log
      ensures && e.kind == Typo && e.confidence == TypoConfidence && e.field in row.keys
              && row.Get(e.field) == Str(e.originalValue)
              && p.row.Get(e.field) == Str(e.cleanedValue)
              && e.cleanedValue == TypoFix(e.originalValue) != e.originalValue
    {
      var j :| 0 <= j < |row.keys| && EditAt(0, r, row, gate, j).Some? && EditAt(0, r, row, gate, j).value.result == e;
      RowPassGet(0, r, row, gate, |row.keys|, j);
    }
  }

  /** Step 1 on one record: a field changes only if it is a string whose label test
      gives another text, and then to that text, with an entry naming the text before
      and after; every entry is such an inconsistency entry with confidence 0.88. */
  lemma NormalizeStep(r: nat, row: Row, gate: (nat, nat, string) -> bool)
    requires row.Valid()
    ensures var p := RowPass(1, r, row, gate, |row.keys|);
      && (forall j :: 0 <= j < |row.keys| && p.row.Get(row.keys[j]) != row.Get(row.keys[j]) ==>
            var v := row.Get(row.keys[j]);
            && v.Str? && p.row.Get(row.keys[j]) == Str(NormalizeLabel(v.s))
            && CleaningResult(Inconsistent, row.keys[j], v.s, NormalizeLabel(v.s), InconsistentConfidence) in p.log)
      && (forall e :: e in p.log ==>
            && e.kind == Inconsistent && e.confidence == InconsistentConfidence && e.field in row.keys
            && row.Get(e.field) == Str(e.originalValue)
            && p.row.Get(e.field) == Str(e.cleanedValue)
            && e.cleanedValue == NormalizeLabel(e.originalValue) != e.originalValue)
      && (forall j ::
            0 <= j < |row.keys| && gate(1, r, row.keys[j]) && row.Get(row.keys[j]).Str? && NormalizeLabel(row.Get(row.keys[j]).s) != row.Get(row.keys[j]).s
            ==>
            var v := row.Get(row.keys[j]);
            && p.row.Get(row.keys[j]) == Str(NormalizeLabel(v.s))
            && CleaningResult(Inconsistent, row.keys[j], v.s, NormalizeLabel(v.s), InconsistentConfidence) in p.log)
  {
    var p := RowPass(1, r, row, gate, |row.keys|);
    RowPassLogged(1, r, row, gate, |row.keys|);
    forall j | 0 <= j < |row.keys| && gate(1, r, row.keys[j]) && row.Get(row.keys[j]).Str?
        && NormalizeLabel(row.Get(row.keys[j]).s) != row.Get(row.keys[j]).s
      ensures p.row.Get(row.keys[j]) == Str(NormalizeLabel(row.Get(row.keys[j]).s))
    {
      RowPassGet(1, r, row, gate, |row.keys|, j);
    }
    forall j | 0 <= j < |row.keys| && p.row.Get(row.keys[j]) != row.Get(row.keys[j])
      ensures var v := row.Get(row.keys[j]);
        && v.Str? && p.row.Get(row.keys[j]) == Str(NormalizeLabel(v.s))
        && CleaningResult(Inconsistent, row.keys[j], v.s, NormalizeLabel(v.s), InconsistentConfidence) in p.log
    {
      ChangedIffLogged(1, r, row, gate, j);
    }
    RowPassLogSource(1, r, row, gate, |row.keys|);
    forall e | e in p.log
      ensures && e.kind == Inconsistent && e.confidence == InconsistentConfidence && e.field in row.keys
              && row.Get(e.field) == Str(e.originalValue)
              && p.row.Get(e.field) == Str(e.cleanedValue)
              && e.cleanedValue == NormalizeLabel(e.originalValue) != e.originalValue
    {
      var j :| 0 <= j < |row.keys| && EditAt(1, r, row, gate, j).Some? && EditAt(1, r, row, gate, j).value.result == e;
      RowPassGet(1, r, row, gate, |row.keys|, j);
    }
  }

  /** Step 2 on one record: only `null`, `undefined` or `''` fields are filled, with
      the fill their name selects, and each fill is logged with `NULL` as the value
      before and confidence 0.75. */
  lemma FillStep(r: nat, row: Row, gate: (nat, nat, string) -> bool)
    requires row.Valid()
    ensures var p := RowPass(2, r, row, gate, |row.keys|);
      && (forall j :: 0 <= j < |row.keys| && p.row.Get(row.keys[j]) != row.Get(row.keys[j]) ==>
            && IsMissing(row.Get(row.keys[j])) && p.row.Get(row.keys[j]) == Str(FillValue(row.keys[j]))
            && CleaningResult(Missing, row.keys[j], "NULL", FillValue(row.keys[j]), MissingConfidence) in p.log)
      && (forall e :: e in p.log ==>
            && e.kind == Missing && e.confidence == MissingConfidence && e.field in row.keys
            && e.originalValue == "NULL" && IsMissing(row.Get(e.field))
            && e.cleanedValue == FillValue(e.field)
            && p.row.Get(e.field) == Str(e.cleanedValue))
      && (forall j :: 0 <= j < |row.keys| && gate(2, r, row.keys[j]) && IsMissing(row.Get(row.keys[j])) ==>
            && p.row.Get(row.keys[j]) == Str(FillValue(row.keys[j])) && !IsMissing(p.row.Get(row.keys[j]))
            && CleaningResult(Missing, row.keys[j], "NULL", FillValue(row.keys[j]), MissingConfidence) in p.log)
  {
    var p := RowPass(2, r, row, gate, |row.keys|);
    RowPassLogged(2, r, row, gate, |row.keys|);
    forall j | 0 <= j < |row.keys| && gate(2, r, row.keys[j]) && IsMissing(row.Get(row.keys[j]))
      ensures p.row.Get(row.keys[j]) == Str(FillValue(row.keys[j]))
    {
      RowPassGet(2, r, row, gate, |row.keys|, j);
    }
    forall j | 0 <= j < |row.keys| && p.row.Get(row.keys[j]) != row.Get(row.keys[j])
      ensures && IsMissing(row.Get(row.keys[j])) && p.row.Get(row.keys[j]) == Str(FillValue(row.keys[j]))
              && CleaningResult(Missing, row.keys[j], "NULL", FillValue(row.keys[j]), MissingConfidence) in p.log
    {
      ChangedIffLogged(2, r, row, gate, j);
    }
    RowPassLogSource(2, r, row, gate, |row.keys|);
    forall e | e in p.log
      ensures && e.kind == Missing && e.confidence == MissingConfidence && e.field in row.keys
              && e.originalValue == "NULL" && IsMissing(row.Get(e.field))
              && e.cleanedValue == FillValue(e.field)
              && p.row.Get(e.field) == Str(e.cleanedValue)
    {
      var j :| 0 <= j < |row.keys| && EditAt(2, r, row, gate, j).Some? && EditAt(2, r, row, gate, j).value.result == e;
      RowPassGet(2, r, row, gate, |row.keys|, j);
    }
  }

  /* ---------------- the synthetic record ---------------- */

  lemma {:induction false} PrefixedValid(first: Row, n: nat)
    requires first.Valid() && n <= |first.keys|
    ensures Prefixed(first, n).Valid()
  {
    if n > 0 {
      PrefixedValid(first, n - 1);
      var key := first.keys[n - 1];
      SetValid(Prefixed(first, n - 1), key, Str(SyntheticText(Prefixed(first, n - 1).Get(key))));
    }
  }

  lemma {:induction false} PrefixedGet(first: Row, n: nat, j: nat)
    requires first.Valid() && n <= |first.keys| && j < |first.keys|
    ensures Prefixed(first, n).Get(first.keys[j]) ==
      if j < n && first.keys[j] != "id" then Str(SyntheticText(first.Get(first.keys[j]))) else first.Get(first.keys[j])
  {
    if n > 0 {
      var key := first.keys[n - 1];
      var kj := first.keys[j];
      var prev := Prefixed(first, n - 1);
      var written := Str(SyntheticText(prev.Get(key)));
      var expected := if j < n && kj != "id" then Str(SyntheticText(first.Get(kj))) else first.Get(kj);
      if j == n - 1 {
        PrefixedGet(first, n - 1, n - 1);
        assert prev.Get(key) == first.Get(key);
        if key != "id" {
          assert Prefixed(first, n) == prev.Set(key, written);
          assert written == expected;
        } else {
          assert Prefixed(first, n) == prev;
        }
      } else {
        PrefixedGet(first, n - 1, j);
        assert kj != key;
        assert prev.Get(kj) == expected;
        if key != "id" {
          assert Prefixed(first, n) == prev.Set(key, written);
        } else {
          assert Prefixed(first, n) == prev;
        }
      }
    }
  }

  /** The synthetic record is well formed; it has the first record's keys (with `id`
      added at the end when the first record lacks it); every field but `id` holds
      `synthetic_` and the first record's value as a template literal renders it;
      and `id` is `synthetic_<stamp>`. With no records it is `{ id: synthetic_<stamp> }`. */
  lemma SyntheticRecord(rows: seq<Row>, stamp: nat)
    requires |rows| == 0 || rows[0].Valid()
    ensures var first := if |rows| == 0 then Row([], map[]) else rows[0];
      var s := Synthetic(rows, stamp);
      && s.Valid()
      && s.keys == (if "id" in first.keys then first.keys else first.keys + ["id"])
      && s.Get("id") == Str("synthetic_" + NatToString(stamp))
      && forall k :: k in first.keys && k != "id" ==> s.Get(k) == Str("synthetic_" + Render(first.Get(k)))
  {
    var first := if |rows| == 0 then Row([], map[]) else rows[0];
    PrefixedValid(first, |first.keys|);
    SetValid(Prefixed(first, |first.keys|), "id", Str("synthetic_" + NatToString(stamp)));
    forall k | k in first.keys && k != "id"
      ensures Synthetic(rows, stamp).Get(k) == Str("synthetic_" + Render(first.Get(k)))
    {
      var j :| 0 <= j < |first.keys| && first.keys[j] == k;
      PrefixedGet(first, |first.keys|, j);
    }
  }

  /* ---------------- a whole step ---------------- */

  /** The kind of entry each of steps 0 to 2 logs. */
  function StepKind(step: nat): ResultType {
    if step == 0 then Typo else if step == 1 then Inconsistent else Missing
  }

  /** The fixed confidence of each kind of entry. */
  function ConfidenceOf(kind: ResultType): nat {
    match kind
    case Typo => TypoConfidence
    case Inconsistent => InconsistentConfidence
    case Missing => MissingConfidence
    case Augmented => AugmentedConfidence
    case Duplicate => 0
  }

  /** Steps 0 to 2 keep the number and order of the records, their keys, and their
      being well formed. */
  lemma StepKeepsShape(step: nat, rows: seq<Row>, gate: (nat, nat, string) -> bool)
    requires forall i :: 0 <= i < |rows| ==> rows[i].Valid()
    ensures var out := StepPass(step, rows, gate, |rows|).rows;
      && |out| == |rows|
      && forall i :: 0 <= i < |rows| ==> out[i].keys == rows[i].keys && out[i].Valid()
  {
    forall i | 0 <= i < |rows| ensures StepPass(step, rows, gate, |rows|).rows[i].Valid() {
      RowPassValid(step, i, rows[i], gate, |rows[i].keys|);
    }
  }

  /** Steps 0 to 2 keep the number of records and the keys of each. */
  lemma StepKeepsKeys(step: nat, rows: seq<Row>, gate: (nat, nat, string) -> bool)
    ensures var out := StepPass(step, rows, gate, |rows|).rows;
      |out| == |rows| && forall i :: 0 <= i < |rows| ==> out[i].keys == rows[i].keys
  {
  }

  /** Every entry a step logs over the first `n` records comes from one of them. */
  lemma {:induction false} StepLogSource(step: nat, rows: seq<Row>, gate: (nat, nat, string) -> bool, n: nat)
    requires n <= |rows|
    ensures forall e :: e in StepPass(step, rows, gate, n).results ==>
      exists i :: 0 <= i < n && e in RowPass(step, i, rows[i], gate, |rows[i].keys|).log
  {
    if n > 0 {
      StepLogSource(step, rows, gate, n - 1);
      var prev := StepPass(step, rows, gate, n - 1).results;
      var last := RowPass(step, n - 1, rows[n - 1], gate, |rows[n - 1].keys|).log;
      assert StepPass(step, rows, gate, n).results == prev + last;
      forall e | e in prev + last
        ensures exists i :: 0 <= i < n && e in RowPass(step, i, rows[i], gate, |rows[i].keys|).log
      {
        if e in prev {
          var i :| 0 <= i < n - 1 && e in RowPass(step, i, rows[i], gate, |rows[i].keys|).log;
        }
      }
    }
  }

  /** Every entry logged for one of the first `n` records is in the step's ledger:
      nothing a record logs is lost on the way to `cleaningResults`. */
  lemma {:induction false} StepLogComplete(step: nat, rows: seq<Row>, gate: (nat, nat, string) -> bool, n: nat)
    requires n <= |rows|
    ensures forall i, e :: 0 <= i < n && e in RowPass(step, i, rows[i], gate, |rows[i].keys|).log ==>
      e in StepPass(step, rows, gate, n).results
  {
    if n > 0 {
      StepLogComplete(step, rows, gate, n - 1);
      var prev := StepPass(step, rows, gate, n - 1).results;
      var last := RowPass(step, n - 1, rows[n - 1], gate, |rows[n - 1].keys|).log;
      assert StepPass(step, rows, gate, n).results == prev + last;
    }
  }

  /** A field a step changes in a well-formed record has the entry of its edit in
      `rows`' ledger of that step. */
  ghost predicate ChangesLogged(step: nat, rows: seq<Row>, gate: (nat, nat, string) -> bool, results: seq<CleaningResult>) {
    forall i, j {:trigger EditAt(step, i, rows[i], gate, j)} ::
      0 <= i < |rows| && rows[i].Valid() && 0 <= j < |rows[i].keys| && StepPass(step, rows, gate, |rows|).rows[i].Get(rows[i].keys[j]) != rows[i].Get(rows[i].keys[j])
      ==> EditAt(step, i, rows[i], gate, j).Some? && EditAt(step, i, rows[i], gate, j).value.result in results
  }

  /** Every field a step changes is logged in the step's ledger, with the entry of
      the edit that changed it. */
  lemma StepChangesLogged(step: nat, rows: seq<Row>, gate: (nat, nat, string) -> bool)
    ensures ChangesLogged(step, rows, gate, StepPass(step, rows, gate, |rows|).results)
  {
    var p := StepPass(step, rows, gate, |rows|);
    StepLogComplete(step, rows, gate, |rows|);
    forall i, j | 0 <= i < |rows| && rows[i].Valid() && 0 <= j < |rows[i].keys| && p.rows[i].Get(rows[i].keys[j]) != rows[i].Get(rows[i].keys[j])
      ensures EditAt(step, i, rows[i], gate, j).Some? && EditAt(step, i, rows[i], gate, j).value.result in p.results
    {
      ChangedIffLogged(step, i, rows[i], gate, j);
    }
  }

  /** Entries logged in one ledger that all reach a second ledger stay logged there. */
  lemma ChangesLoggedWiden(step: nat, rows: seq<Row>, gate: (nat, nat, string) -> bool, part: seq<CleaningResult>, whole: seq<CleaningResult>)
    requires ChangesLogged(step, rows, gate, part)
    requires forall e :: e in part ==> e in whole
    ensures ChangesLogged(step, rows, gate, whole)
  {
  }

  /** Every entry a step logs for one record has the step's kind and confidence and
      names a key of the record. */
  lemma RowLogEntries(step: nat, r: nat, row: Row, gate: (nat, nat, string) -> bool)
    ensures forall e :: e in RowPass(step, r, row, gate, |row.keys|).log ==>
      e.kind == StepKind(step) && e.confidence == ConfidenceOf(e.kind) && e.field in row.keys
  {
    RowPassLogSource(step, r, row, gate, |row.keys|);
  }

  /** Every entry steps 0 to 2 log has the step's kind and confidence and names a
      key of the record it came from. */
  lemma StepLogEntries(step: nat, rows: seq<Row>, gate: (nat, nat, string) -> bool)
    ensures forall e :: e in StepPass(step, rows, gate, |rows|).results ==>
      && e.kind == StepKind(step) && e.confidence == ConfidenceOf(e.kind)
      && exists i :: 0 <= i < |rows| && e.field in rows[i].keys
  {
    StepLogSource(step, rows, gate, |rows|);
    forall e | e in StepPass(step, rows, gate, |rows|).results
      ensures && e.kind == StepKind(step) && e.confidence == ConfidenceOf(e.kind)
              && exists i :: 0 <= i < |rows| && e.field in rows[i].keys
    {
      var i :| 0 <= i < |rows| && e in RowPass(step, i, rows[i], gate, |rows[i].keys|).log;
      RowLogEntries(step, i, rows[i], gate);
    }
  }

  /* ---------------- the whole run ---------------- */

  /** A cleaning step maps the records and appends what it logged. */
  lemma CleaningStepAt(data: seq<Row>, gate: (nat, nat, string) -> bool, augment: bool, stamp: nat, n: nat, prev: Run)
    requires n <= 2 && RunSteps(data, gate, augment, stamp, n) == prev
    ensures var p := StepPass(n, prev.rows, gate, |prev.rows|);
      RunSteps(data, gate, augment, stamp, n + 1) == Run(p.rows, prev.results + p.results)
  {
  }

  /** A step without a case changes nothing, and neither does step 4 without
      augmentation. */
  lemma QuietStepAt(data: seq<Row>, gate: (nat, nat, string) -> bool, augment: bool, stamp: nat, n: nat, prev: Run)
    requires n > 2 && !(n == 4 && augment) && RunSteps(data, gate, augment, stamp, n) == prev
    ensures RunSteps(data, gate, augment, stamp, n + 1) == prev
  {
  }

  /** Step 4 with augmentation appends the synthetic record and its entry. */
  lemma AugmentStepAt(data: seq<Row>, gate: (nat, nat, string) -> bool, augment: bool, stamp: nat, n: nat, prev: Run)
    requires n == 4 && augment && RunSteps(data, gate, augment, stamp, n) == prev
    ensures RunSteps(data, gate, augment, stamp, n + 1) ==
      Run(prev.rows + [Synthetic(prev.rows, stamp)], prev.results + [AugmentResult])
  {
  }

  /** The run is step 0, 1 and 2 over the records, then the optional synthetic
      record; steps 3 and 5 add nothing. */
  lemma {:induction false} PipelineStages(data: seq<Row>, gate: (nat, nat, string) -> bool, augment: bool, stamp: nat)
    ensures var p0 := StepPass(0, data, gate, |data|);
      var p1 := StepPass(1, p0.rows, gate, |p0.rows|);
      var p2 := StepPass(2, p1.rows, gate, |p1.rows|);
      var extra := if augment then [Synthetic(p2.rows, stamp)] else [];
      var logged := if augment then [AugmentResult] else [];
      Pipeline(data, gate, augment, stamp) == Run(p2.rows + extra, p0.results + p1.results + p2.results + logged)
  {
    var p0 := StepPass(0, data, gate, |data|);
    var p1 := StepPass(1, p0.rows, gate, |p0.rows|);
    var p2 := StepPass(2, p1.rows, gate, |p1.rows|);
    var extra := if augment then [Synthetic(p2.rows, stamp)] else [];
    var logged := if augment then [AugmentResult] else [];
    var s0 := Run(data, []);
    CleaningStepAt(data, gate, augment, stamp, 0, s0);
    assert [] + p0.results == p0.results;
    var s1 := Run(p0.rows, p0.results);
    CleaningStepAt(data, gate, augment, stamp, 1, s1);
    var s2 := Run(p1.rows, p0.results + p1.results);
    CleaningStepAt(data, gate, augment, stamp, 2, s2);
    var s3 := Run(p2.rows, p0.results + p1.results + p2.results);
    QuietStepAt(data, gate, augment, stamp, 3, s3);
    var s5 := Run(p2.rows + extra, p0.results + p1.results + p2.results + logged);
    if augment {
      AugmentStepAt(data, gate, augment, stamp, 4, s3);
    } else {
      QuietStepAt(data, gate, augment, stamp, 4, s3);
      assert s3.rows + extra == s3.rows && s3.results + logged == s3.results;
    }
    QuietStepAt(data, gate, augment, stamp, 5, s5);
  }

  /** The run ends with the records it was given, in order and with their keys, and
      one synthetic record appended when augmentation fired: `n` or `n + 1` records. */
  lemma PipelineRecords(data: seq<Row>, gate: (nat, nat, string) -> bool, augment: bool, stamp: nat)
    requires forall i :: 0 <= i < |data| ==> data[i].Valid()
    ensures var out := Pipeline(data, gate, augment, stamp).rows;
      && |out| == |data| + (if augment then 1 else 0)
      && (forall i :: 0 <= i < |data| ==> out[i].keys == data[i].keys && out[i].Valid())
      && (augment ==> out[|data|] == Synthetic(out[..|data|], stamp))
  {
    PipelineStages(data, gate, augment, stamp);
    var p0 := StepPass(0, data, gate, |data|);
    var p1 := StepPass(1, p0.rows, gate, |p0.rows|);
    var p2 := StepPass(2, p1.rows, gate, |p1.rows|);
    StepKeepsShape(0, data, gate);
    StepKeepsShape(1, p0.rows, gate);
    StepKeepsShape(2, p1.rows, gate);
    if augment {
      assert (p2.rows + [Synthetic(p2.rows, stamp)])[..|data|] == p2.rows;
    }
  }

  /** Every field that step 0, 1 or 2 changes in a record is logged in the ledger
      the run hands over, with the entry of the edit that changed it. */
  lemma PipelineChangesLogged(data: seq<Row>, gate: (nat, nat, string) -> bool, augment: bool, stamp: nat)
    ensures var p0 := StepPass(0, data, gate, |data|);
      var p1 := StepPass(1, p0.rows, gate, |p0.rows|);
      var results := Pipeline(data, gate, augment, stamp).results;
      && ChangesLogged(0, data, gate, results)
      && ChangesLogged(1, p0.rows, gate, results)
      && ChangesLogged(2, p1.rows, gate, results)
  {
    PipelineStages(data, gate, augment, stamp);
    var p0 := StepPass(0, data, gate, |data|);
    var p1 := StepPass(1, p0.rows, gate, |p0.rows|);
    var p2 := StepPass(2, p1.rows, gate, |p1.rows|);
    var logged := if augment then [AugmentResult] else [];
    var results := p0.results + p1.results + p2.results + logged;
    StepChangesLogged(0, data, gate);
    StepChangesLogged(1, p0.rows, gate);
    StepChangesLogged(2, p1.rows, gate);
    ChangesLoggedWiden(0, data, gate, p0.results, results);
    ChangesLoggedWiden(1, p0.rows, gate, p1.results, results);
    ChangesLoggedWiden(2, p1.rows, gate, p2.results, results);
  }

  /** A ledger field names a key of one of the input records, or the whole row. */
  ghost predicate FromInput(field: string, data: seq<Row>) {
    field == EntireRow || exists i :: 0 <= i < |data| && field in data[i].keys
  }

  /** A cleaning step over records with the keys of `data` logs entries of its own
      kind and confidence, each naming a key of an input record. */
  lemma StepEntriesFromInput(step: nat, rows: seq<Row>, gate: (nat, nat, string) -> bool, data: seq<Row>)
    requires |rows| == |data| && forall i :: 0 <= i < |rows| ==> rows[i].keys == data[i].keys
    ensures forall e :: e in StepPass(step, rows, gate, |rows|).results ==>
      e.kind == StepKind(step) && e.confidence == ConfidenceOf(e.kind) && FromInput(e.field, data)
  {
    StepLogEntries(step, rows, gate);
  }

  /** Four ledgers laid end to end: the index ranges of the parts keep their
      entries' kinds. */
  lemma {:induction false} LedgerLayout(r0: seq<CleaningResult>, r1: seq<CleaningResult>, r2: seq<CleaningResult>,
                                        logged: seq<CleaningResult>, data: seq<Row>)
    requires forall e :: e in r0 ==> e.kind == Typo && e.confidence == ConfidenceOf(e.kind) && FromInput(e.field, data)
    requires forall e :: e in r1 ==> e.kind == Inconsistent && e.confidence == ConfidenceOf(e.kind) && FromInput(e.field, data)
    requires forall e :: e in r2 ==> e.kind == Missing && e.confidence == ConfidenceOf(e.kind) && FromInput(e.field, data)
    requires logged == [] || logged == [AugmentResult]
    ensures var results := r0 + r1 + r2 + logged;
      var a := |r0|;
      var b := a + |r1|;
      var c := b + |r2|;
      && (forall k :: 0 <= k < a ==> results[k].kind == Typo)
      && (forall k :: a <= k < b ==> results[k].kind == Inconsistent)
      && (forall k :: b <= k < c ==> results[k].kind == Missing)
      && (forall k :: c <= k < |results| ==> results[k] == AugmentResult)
      && (forall k :: 0 <= k < |results| ==> results[k].confidence == ConfidenceOf(results[k].kind))
      && (forall k :: 0 <= k < |results| ==> FromInput(results[k].field, data))
  {
    var results := r0 + r1 + r2 + logged;
    var a := |r0|;
    var b := a + |r1|;
    var c := b + |r2|;
    forall k | 0 <= k < |results|
      ensures k < a ==> results[k].kind == Typo
      ensures a <= k < b ==> results[k].kind == Inconsistent
      ensures b <= k < c ==> results[k].kind == Missing
      ensures c <= k ==> results[k] == AugmentResult
      ensures results[k].confidence == ConfidenceOf(results[k].kind)
      ensures FromInput(results[k].field, data)
    {
      if k < a {
        assert results[k] == r0[k];
      } else if k < b {
        assert results[k] == r1[k - a];
      } else if k < c {
        assert results[k] == r2[k - b];
      } else {
        assert results[k] == logged[k - c];
        assert FromInput(EntireRow, data);
      }
    }
  }

  /** The ledger lists the typo entries, then the label entries, then the fill
      entries, then the one augmentation entry if it fired; each entry carries its
      kind's confidence and names a key of an input record or `entire_row`. */
  lemma PipelineLedger(data: seq<Row>, gate: (nat, nat, string) -> bool, augment: bool, stamp: nat)
    ensures var p0 := StepPass(0, data, gate, |data|);
      var p1 := StepPass(1, p0.rows, gate, |p0.rows|);
      var p2 := StepPass(2, p1.rows, gate, |p1.rows|);
      var a := |p0.results|;
      var b := a + |p1.results|;
      var c := b + |p2.results|;
      var results := Pipeline(data, gate, augment, stamp).results;
      && |results| == c + (if augment then 1 else 0)
      && (forall k :: 0 <= k < a ==> results[k].kind == Typo)
      && (forall k :: a <= k < b ==> results[k].kind == Inconsistent)
      && (forall k :: b <= k < c ==> results[k].kind == Missing)
      && (forall k :: c <= k < |results| ==> results[k] == AugmentResult)
      && (forall k :: 0 <= k < |results| ==> results[k].confidence == ConfidenceOf(results[k].kind))
      && (forall k :: 0 <= k < |results| ==> FromInput(results[k].field, data))
  {
    PipelineStages(data, gate, augment, stamp);
    var p0 := StepPass(0, data, gate, |data|);
    var p1 := StepPass(1, p0.rows, gate, |p0.rows|);
    StepKeepsKeys(0, data, gate);
    StepKeepsKeys(1, p0.rows, gate);
    var p2 := StepPass(2, p1.rows, gate, |p1.rows|);
    StepEntriesFromInput(0, data, gate, data);
    StepEntriesFromInput(1, p0.rows, gate, data);
    StepEntriesFromInput(2, p1.rows, gate, data);
    var logged := if augment then [AugmentResult] else [];
    LedgerLayout(p0.results, p1.results, p2.results, logged, data);
  }
}
