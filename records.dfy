/**
 * The shared data shapes of the components: a `DataRow` (a JavaScript object
 * with an `id` and any other fields) and a `CleaningResult` ledger entry.
 */
module Records {
  import opened Text

  /** A field value: a string, a number, any other JSON value (shown through
      its text rendering), `null`, or `undefined` (what a missing key reads as). */
  datatype Value = Str(s: string) | Num(n: int) | Other(rendering: string) | Null | Undefined

  /** A value that may be absent, as `undefined` from `Array.find`. */
  datatype Option<T> = None | Some(value: T)

  /** `String(v)`, also what a template literal `${v}` produces. */
  function Render(v: Value): string {
    match v
    case Str(s) => s
    case Num(n) => IntToString(n)
    case Other(r) => r
    case Null => "null"
    case Undefined => "undefined"
  }

  /** The text `Array.prototype.join` writes for an element: `null` and
      `undefined` become empty, everything else is rendered. */
  function JoinText(v: Value): string {
    if v == Null || v == Undefined then "" else Render(v)
  }

  /** A JavaScript object: its own keys in insertion order and their values. */
  datatype Row = Row(keys: seq<string>, vals: map<string, Value>) {

    ghost predicate Valid() {
      && (forall i, j :: 0 <= i < j < |keys| ==> keys[i] != keys[j])
      && (forall k :: k in vals <==> k in keys)
    }

    /** `row[k]`: a missing key reads as `undefined`. */
    function Get(k: string): Value {
      if k in vals then vals[k] else Undefined
    }

    /** `row[k] = v`: an existing key keeps its place, a new key goes last. */
    function Set(k: string, v: Value): (r: Row)
      ensures r.Get(k) == v
      ensures forall k' :: k' != k ==> r.Get(k') == Get(k')
      ensures k in keys ==> r.keys == keys
      ensures k !in keys ==> r.keys == keys + [k]
    {
      if k in keys then Row(keys, vals[k := v]) else Row(keys + [k], vals[k := v])
    }
  }

  /** Assignment keeps a row well formed. */
  lemma SetValid(row: Row, k: string, v: Value)
    requires row.Valid()
    ensures row.Set(k, v).Valid()
  {
  }

  /** The object literal `{ k: v }`. */
  function Single(k: string, v: Value): (r: Row)
    ensures r.keys == [k] && r.Get(k) == v
    ensures forall k' :: k' != k ==> r.Get(k') == Undefined
  {
    Row([k], map[k := v])
  }

  lemma SingleValid(k: string, v: Value)
    ensures Single(k, v).Valid()
  {
  }

  /** Two well-formed rows with the same keys and the same value at each key are equal. */
  lemma RowExt(a: Row, b: Row)
    requires a.Valid() && b.Valid()
    requires a.keys == b.keys
    requires forall i :: 0 <= i < |a.keys| ==> a.Get(a.keys[i]) == b.Get(a.keys[i])
    ensures a == b
  {
    forall k | k in a.vals
      ensures k in b.vals && a.vals[k] == b.vals[k]
    {
      var i :| 0 <= i < |a.keys| && a.keys[i] == k;
    }
    assert a.vals == b.vals;
  }

  /** The `type` of a cleaning result. */
  datatype ResultType = Typo | Missing | Inconsistent | Duplicate | Augmented

  /** A ledger entry; `confidence` is in thousandths (0.95 is 950). */
  datatype CleaningResult = CleaningResult(
    kind: ResultType,
    field: string,
    originalValue: string,
    cleanedValue: string,
    confidence: nat)

  /** The field name an augmentation entry uses for a whole synthesized row. */
  const EntireRow: string := "entire_row"

  /** The number of results of kind `t`. */
  function CountOf(results: seq<CleaningResult>, t: ResultType): (n: nat)
    ensures n <= |results|
    ensures n == 0 <==> forall i :: 0 <= i < |results| ==> results[i].kind != t
  {
    if |results| == 0 then 0
    else CountOf(results[..|results| - 1], t) + (if results[|results| - 1].kind == t then 1 else 0)
  }

  /** The kinds that occur in `results`, each once, in order of first occurrence
      (`Array.from(new Set(results.map(r => r.type)))`). */
  function DistinctKinds(results: seq<CleaningResult>): (kinds: seq<ResultType>)
    ensures forall i, j :: 0 <= i < j < |kinds| ==> kinds[i] != kinds[j]
    ensures forall t :: t in kinds <==> exists i :: 0 <= i < |results| && results[i].kind == t
  {
    if |results| == 0 then []
    else
      var prefix := results[..|results| - 1];
      var last := results[|results| - 1].kind;
      var kinds := DistinctKinds(prefix);
      assert forall i :: 0 <= i < |prefix| ==> prefix[i] == results[i];
      if last in kinds then kinds else kinds + [last]
  }

  /** The total of the counts of the given kinds. */
  function SumCounts(results: seq<CleaningResult>, kinds: seq<ResultType>): nat {
    if |kinds| == 0 then 0
    else SumCounts(results, kinds[..|kinds| - 1]) + CountOf(results, kinds[|kinds| - 1])
  }

  /** Appending a result adds one to the total of any list of distinct kinds that
      holds its kind, and nothing otherwise. */
  lemma {:induction false} SumCountsSnoc(results: seq<CleaningResult>, r: CleaningResult, kinds: seq<ResultType>)
    requires forall i, j :: 0 <= i < j < |kinds| ==> kinds[i] != kinds[j]
    ensures SumCounts(results + [r], kinds) == SumCounts(results, kinds) + (if r.kind in kinds then 1 else 0)
  {
    if |kinds| > 0 {
      var init := kinds[..|kinds| - 1];
      SumCountsSnoc(results, r, init);
      assert (results + [r])[..|results|] == results;
      assert r.kind in kinds <==> r.kind in init || r.kind == kinds[|kinds| - 1];
      assert r.kind in init ==> r.kind != kinds[|kinds| - 1];
    }
  }

  /** The per-kind counts partition the results: over the distinct kinds they add up
      to the number of results. */
  lemma {:induction false} CountsPartition(results: seq<CleaningResult>)
    ensures SumCounts(results, DistinctKinds(results)) == |results|
  {
    if |results| > 0 {
      var prefix := results[..|results| - 1];
      var r := results[|results| - 1];
      assert results == prefix + [r];
      var kinds := DistinctKinds(prefix);
      CountsPartition(prefix);
      SumCountsSnoc(prefix, r, kinds);
      if r.kind !in kinds {
        assert CountOf(prefix, r.kind) == 0;
        assert DistinctKinds(results) == kinds + [r.kind];
        assert (kinds + [r.kind])[..|kinds|] == kinds;
      }
    }
  }
}
