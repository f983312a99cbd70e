/**
 * The efficiency evaluator: for each catalog entry with a positive market price and a positive
 * production time, the price earned per hour of production, ranked from best to worst.
 */
module Evaluate {
  import opened Wrappers
  import opened Text
  import opened Sorting
  import opened Folds

  /** An entry of the durations catalog. `kind` is `None` when the entry carries no kind. */
  datatype Duration = Duration(name: string, kind: Option<string>, durationSec: real)

  /** Market price by lower-case item name. */
  type PriceBook = map<string, real>

  datatype Row = Row(name: string, kind: Option<string>, lastSaleFC: real, durationSec: real, fcPerHour: real)

  function FcPerHour(r: Row): real {
    r.fcPerHour
  }

  /** The row a catalog entry contributes: one exactly when the book has a positive price under
      the entry's lower-cased name and the entry's duration is positive. The row copies the
      entry, carries that price, and its rate earns the price over the duration. */
  function RowFor(d: Duration, prices: PriceBook): (r: Option<Row>)
    ensures r.Some? <==> Lower(d.name) in prices && prices[Lower(d.name)] > 0.0 && d.durationSec > 0.0
    ensures r.Some? ==>
      && r.value.name == d.name
      && r.value.kind == d.kind
      && r.value.durationSec == d.durationSec
      && r.value.lastSaleFC == prices[Lower(d.name)]
    ensures r.Some? ==> r.value.fcPerHour * (r.value.durationSec / 3600.0) == r.value.lastSaleFC
    ensures r.Some? ==> r.value.fcPerHour > 0.0
  {
    var key := Lower(d.name);
    if key in prices && prices[key] > 0.0 && d.durationSec > 0.0 then
      var hours := d.durationSec / 3600.0;
      Some(Row(d.name, d.kind, prices[key], d.durationSec, prices[key] / hours))
    else None
  }

  function RowOf(prices: PriceBook): Duration -> Option<Row> {
    d => RowFor(d, prices)
  }

  /** `durations.map(...).filter(r => r !== null)`: the entries' rows in catalog order, the
      dropped entries left out. */
  function Candidates(ds: seq<Duration>, prices: PriceBook): seq<Row> {
    FilterMap(ds, RowOf(prices))
  }

  /** `evaluateEfficiency(durations, prices)`. */
  function EvaluateEfficiency(ds: seq<Duration>, prices: PriceBook): (out: seq<Row>)
    ensures SortedDesc(out, FcPerHour)
    ensures multiset(out) == multiset(Candidates(ds, prices))
    ensures |out| <= |ds|
  {
    FilterMapLength(ds, RowOf(prices));
    SortDesc(Candidates(ds, prices), FcPerHour)
  }

  /** A row is a candidate exactly when some catalog entry contributes it. */
  lemma CandidatesExactly(ds: seq<Duration>, prices: PriceBook, r: Row)
    ensures r in Candidates(ds, prices) <==> exists i :: 0 <= i < |ds| && RowFor(ds[i], prices) == Some(r)
  {
    FilterMapExactly(ds, RowOf(prices), r);
    assert forall i :: 0 <= i < |ds| ==> RowOf(prices)(ds[i]) == RowFor(ds[i], prices);
  }

  /** Every output row comes from a catalog entry that passes the filter, and every entry that
      passes the filter has its row in the output. */
  lemma EvaluateEfficiencyRows(ds: seq<Duration>, prices: PriceBook)
    ensures forall r :: r in EvaluateEfficiency(ds, prices) ==>
      exists i :: 0 <= i < |ds| && RowFor(ds[i], prices) == Some(r)
    ensures forall i :: 0 <= i < |ds| && RowFor(ds[i], prices).Some? ==>
      RowFor(ds[i], prices).value in EvaluateEfficiency(ds, prices)
  {
    var out := EvaluateEfficiency(ds, prices);
    forall r | r in out ensures exists i :: 0 <= i < |ds| && RowFor(ds[i], prices) == Some(r) {
      assert r in multiset(out);
      CandidatesExactly(ds, prices, r);
    }
    forall i | 0 <= i < |ds| && RowFor(ds[i], prices).Some?
      ensures RowFor(ds[i], prices).value in out
    {
      var r := RowFor(ds[i], prices).value;
      CandidatesExactly(ds, prices, r);
      assert r in multiset(Candidates(ds, prices));
    }
  }

  /** Rows with equal rates keep their catalog order: for each rate, the output lists the rows
      with that rate in the order the catalog produces them. */
  lemma EvaluateEfficiencyStable(ds: seq<Duration>, prices: PriceBook, rate: real)
    ensures WithKey(EvaluateEfficiency(ds, prices), FcPerHour, rate) == WithKey(Candidates(ds, prices), FcPerHour, rate)
  {
    SortDescStable(Candidates(ds, prices), FcPerHour, rate);
  }

  /** The output is the only ranking that is non-increasing and keeps catalog order on ties. */
  lemma EvaluateEfficiencyUnique(ds: seq<Duration>, prices: PriceBook, out: seq<Row>)
    requires SortedDesc(out, FcPerHour)
    requires forall k :: WithKey(out, FcPerHour, k) == WithKey(Candidates(ds, prices), FcPerHour, k)
    ensures out == EvaluateEfficiency(ds, prices)
  {
    SortDescCharacterised(Candidates(ds, prices), out, FcPerHour);
  }

  /** A one-hour item earns its price per hour. */
  lemma WheatExample()
    ensures EvaluateEfficiency([Duration("Wheat", Some("crop"), 3600.0)], map["wheat" := 3.0])
         == [Row("Wheat", Some("crop"), 3.0, 3600.0, 3.0)]
  {
    var d := Duration("Wheat", Some("crop"), 3600.0);
    assert Lower("Wheat") == "wheat";
    assert RowFor(d, map["wheat" := 3.0]) == Some(Row("Wheat", Some("crop"), 3.0, 3600.0, 3.0));
    assert [d][..0] == [];
  }

  /** An entry with no production time yields no row, whatever its price. */
  lemma ZeroDurationExample(name: string, prices: PriceBook)
    ensures EvaluateEfficiency([Duration(name, Some("crop"), 0.0)], prices) == []
  {
    var ds := [Duration(name, Some("crop"), 0.0)];
    FilterMapStep(ds, 0, RowOf(prices));
    assert ds[..0] == [] && ds[..1] == ds;
    assert RowOf(prices)(ds[0]) == None;
    assert Candidates(ds, prices) == [];
  }
}
