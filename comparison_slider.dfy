/**
 * The comparison view between the original and the cleaned records: the quality
 * scores shown for each side, which records and which ledger the slider hands to
 * the table, and the per-kind summary of the ledger.
 */
module ComparisonSlider {
  import opened Text
  import opened Records
  import opened Cleaning
  import opened Ingest

  /** The slider's right end. */
  const Cleaned: nat := 100

  /** `getDataQualityScore(data, hasResults)`, where the ledger is the one the
      component was given. */
  function QualityScore(data: seq<Row>, hasResults: bool, results: seq<CleaningResult>): (q: nat)
    ensures data == [] ==> q == 0
    ensures data != [] && !hasResults ==> q == 70
    ensures data != [] && hasResults ==> 70 <= q <= 95
  {
    if |data| == 0 then 0
    else
      var base := 70;
      var added := if hasResults then base + Min(30, 2 * |results|) else base;
      if hasResults then Min(95, added) else added
  }


  /** The cleaned score climbs by two points per ledger entry and stops at 95, from
      thirteen entries on; the cap of 30 added points is never reached. */
  lemma CleanedQualityCurve(data: seq<Row>, results: seq<CleaningResult>)
    requires data != []
    ensures |results| <= 12 ==> QualityScore(data, true, results) == 70 + 2 * |results|
    ensures |results| >= 13 ==> QualityScore(data, true, results) == 95
  {
  }

  /** The cleaned score does not fall when the ledger grows. */
  lemma QualityMonotone(data: seq<Row>, fewer: seq<CleaningResult>, more: seq<CleaningResult>)
    requires |fewer| <= |more|
    ensures QualityScore(data, true, fewer) <= QualityScore(data, true, more)
  {
  }

  /** The `+N%` badge: the cleaned score less the original one. */
  function Improvement(original: seq<Row>, cleaned: seq<Row>, results: seq<CleaningResult>): int {
    QualityScore(cleaned, true, results) - QualityScore(original, false, results)
  }

  /** When both sides hold records the badge is between 0 and 25. */
  lemma ImprovementBounds(original: seq<Row>, cleaned: seq<Row>, results: seq<CleaningResult>)
    requires original != [] && cleaned != []
    ensures 0 <= Improvement(original, cleaned, results) <= 25
  {
  }

  /** The page shows the comparison only with the output of a cleaning run over the
      uploaded records, which is never shorter than them: the badge is never
      negative there. */
  lemma ImprovementAfterCleaning(data: seq<Row>, gate: (nat, nat, string) -> bool, augment: bool, stamp: nat)
    requires forall i :: 0 <= i < |data| ==> data[i].Valid()
    ensures var run := Pipeline(data, gate, augment, stamp);
      Improvement(data, run.rows, run.results) >= 0
  {
    PipelineRecords(data, gate, augment, stamp);
  }

  /** The page mounts the comparison only when both the uploaded and the cleaned
      records are non-empty, so the badge it shows is never negative. */
  lemma ImprovementOnPage(page: Page)
    requires page.ShowsComparison()
    ensures 0 <= Improvement(page.originalData, page.cleanedData, page.cleaningResults) <= 25
  {
    ImprovementBounds(page.originalData, page.cleanedData, page.cleaningResults);
  }

  /** `getCurrentData()`: the original records only at the slider's left end. */
  function CurrentData(view: nat, original: seq<Row>, cleaned: seq<Row>): (d: seq<Row>)
    ensures view == 0 ==> d == original
    ensures view != 0 ==> d == cleaned
  {
    if view == 0 then original else cleaned
  }

  /** `getCurrentResults()`: the ledger only at the slider's right end. */
  function CurrentResults(view: nat, results: seq<CleaningResult>): (r: seq<CleaningResult>)
    ensures view == Cleaned ==> r == results
    ensures view != Cleaned ==> r == []
  {
    if view == Cleaned then results else []
  }

  /** Between the ends the table shows the cleaned records without highlighting. */
  lemma MiddleOfSlider(view: nat, original: seq<Row>, cleaned: seq<Row>, results: seq<CleaningResult>)
    requires 0 < view < Cleaned
    ensures CurrentData(view, original, cleaned) == cleaned && CurrentResults(view, results) == []
  {
  }

  /** The "Currently viewing" badge. */
  function ViewLabel(view: nat): (caption: string)
    ensures view == 0 ==> caption == "Original"
    ensures view == Cleaned ==> caption == "Cleaned"
    ensures view != 0 && view != Cleaned ==> EndsWith(caption, "% Cleaned") && |caption| > |"Cleaned"|
  {
    if view == 0 then "Original"
    else if view == Cleaned then "Cleaned"
    else NatToString(view) + "% Cleaned"
  }

  /* ---------------- the cleaning summary ---------------- */

  /** The accumulator of the summary's `reduce`: a JavaScript object from kind to
      count, whose keys keep the order they were first written in. */
  datatype Tally = Tally(kinds: seq<ResultType>, counts: map<ResultType, nat>)

  /** `acc[result.type] = (acc[result.type] || 0) + 1` over the ledger. */
  function Summary(results: seq<CleaningResult>): (acc: Tally)
    ensures forall t :: t in acc.counts <==> t in acc.kinds
  {
    if |results| == 0 then Tally([], map[])
    else
      var prev := Summary(results[..|results| - 1]);
      var t := results[|results| - 1].kind;
      var n := if t in prev.counts then prev.counts[t] else 0;
      Tally(if t in prev.counts then prev.kinds else prev.kinds + [t], prev.counts[t := n + 1])
  }

  /** The summary lists the kinds present, in first-occurrence order, each with the
      number of entries of that kind. */
  lemma {:induction false} SummaryCounts(results: seq<CleaningResult>)
    ensures Summary(results).kinds == DistinctKinds(results)
    ensures forall t :: t in Summary(results).counts ==> Summary(results).counts[t] == CountOf(results, t)
  {
    if |results| > 0 {
      var prefix := results[..|results| - 1];
      SummaryCounts(prefix);
      var prev := Summary(prefix);
      var t := results[|results| - 1].kind;
      forall u | u in Summary(results).counts ensures Summary(results).counts[u] == CountOf(results, u) {
        if u != t {
          assert u in prev.counts;
        } else if t !in prev.counts {
          assert t !in DistinctKinds(prefix);
          assert CountOf(prefix, t) == 0;
        }
      }
    }
  }

  /** The sum of the counts of the listed kinds. */
  function SummaryTotal(acc: Tally, n: nat): nat
    requires n <= |acc.kinds| && forall t :: t in acc.kinds ==> t in acc.counts
  {
    if n == 0 then 0 else SummaryTotal(acc, n - 1) + acc.counts[acc.kinds[n - 1]]
  }

  /** Each summary card has a count of at least one, the kinds shown are exactly
      those present, and the counts add up to the length of the ledger. */
  lemma SummaryAddsUp(results: seq<CleaningResult>)
    ensures var acc := Summary(results);
      && (forall t :: t in acc.counts <==> exists i :: 0 <= i < |results| && results[i].kind == t)
      && (forall t :: t in acc.counts ==> acc.counts[t] >= 1)
      && SummaryTotal(acc, |acc.kinds|) == |results|
  {
    var acc := Summary(results);
    SummaryCounts(results);
    var kinds := DistinctKinds(results);
    SummaryTotalIsSum(results, |kinds|);
    assert kinds[..|kinds|] == kinds;
    CountsPartition(results);
  }

  lemma {:induction false} SummaryTotalIsSum(results: seq<CleaningResult>, n: nat)
    requires Summary(results).kinds == DistinctKinds(results) && n <= |DistinctKinds(results)|
    requires forall t :: t in Summary(results).counts ==> Summary(results).counts[t] == CountOf(results, t)
    ensures SummaryTotal(Summary(results), n) == SumCounts(results, DistinctKinds(results)[..n])
  {
    if n > 0 {
      SummaryTotalIsSum(results, n - 1);
      var kinds := DistinctKinds(results);
      assert kinds[..n][..n - 1] == kinds[..n - 1];
    }
  }
}
