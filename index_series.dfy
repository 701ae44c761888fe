/**
  A monthly wage-index series (RIPTE) as the calculators hold it: rows with
  a date and an index value, in the order of the CSV file. Both
  `get_ripte_coeficiente` (apps/calculadora_lrt.py) and `actualizar_ripte`
  (apps/calculadora_despidos.py) pick a row with the same rule: the last
  row, in file order, dated on or before a given day.
 */
module IndexSeries {
  import opened Options
  import opened Dates

  datatype IndexRow = IndexRow(fecha: Date, value: real)

  /**
    `series[series['fecha'] <= d].iloc[-1]` as a position: the last row
    dated on or before `d`, or `None` when every row is later.
   */
  function LastAtOrBefore(series: seq<IndexRow>, d: Date): (k: Option<nat>)
    ensures k.Some? ==> k.value < |series| && Le(series[k.value].fecha, d)
    ensures k.Some? ==> forall j :: k.value < j < |series| ==> !Le(series[j].fecha, d)
    ensures k.None? <==> forall j :: 0 <= j < |series| ==> !Le(series[j].fecha, d)
    decreases |series|
  {
    if |series| == 0 then None
    else if Le(series[|series| - 1].fecha, d) then Some(|series| - 1)
    else LastAtOrBefore(series[..|series| - 1], d)
  }

  lemma LeTransitive(a: Date, b: Date, c: Date)
    requires Le(a, b) && Le(b, c)
    ensures Le(a, c)
  {
  }

  /** A later day never selects an earlier row. */
  lemma LastAtOrBeforeMonotone(series: seq<IndexRow>, d1: Date, d2: Date)
    requires Le(d1, d2)
    requires LastAtOrBefore(series, d1).Some?
    ensures LastAtOrBefore(series, d2).Some?
    ensures LastAtOrBefore(series, d1).value <= LastAtOrBefore(series, d2).value
  {
    var k1 := LastAtOrBefore(series, d1).value;
    LeTransitive(series[k1].fecha, d1, d2);
  }

  /** A day on or after the last row's date selects the last row. */
  lemma LastAtOrBeforeLatest(series: seq<IndexRow>, d: Date)
    requires |series| > 0 && Le(series[|series| - 1].fecha, d)
    ensures LastAtOrBefore(series, d) == Some(|series| - 1)
  {
  }

  /** Index values that never fall along the file. */
  predicate NonDecreasing(series: seq<IndexRow>) {
    forall i, j :: 0 <= i <= j < |series| ==> series[i].value <= series[j].value
  }
}
