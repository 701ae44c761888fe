/**
  The two updates of the severance total to the settlement date in
  apps/calculadora_despidos.py: `actualizar_ripte`, by the wage index plus
  3%, and `actualizar_tasa`, by the lending rate prorated over the days each
  rate row shares with the period. Unlike the work-injury calculator, these
  helpers round nothing.
 */
module SeveranceUpdate {
  import opened Options
  import opened Dates
  import opened IndexSeries
  import opened RealArith

  // ---------------------------------------------------------------------
  // `actualizar_ripte`
  // ---------------------------------------------------------------------

  /** The index at the start: the last row dated on or before it, or the first row when every row is later. */
  function StartValue(series: seq<IndexRow>, inicial: Date): (v: real)
    requires |series| > 0
    ensures LastAtOrBefore(series, inicial).Some? ==> v == series[LastAtOrBefore(series, inicial).value].value
    ensures LastAtOrBefore(series, inicial).None? ==> v == series[0].value
  {
    var k := LastAtOrBefore(series, inicial);
    if k.Some? then series[k.value].value else series[0].value
  }

  /** The index at the end: the last row dated on or before it, or the last row when every row is later. */
  function EndValue(series: seq<IndexRow>, final: Date): (v: real)
    requires |series| > 0
    ensures LastAtOrBefore(series, final).Some? ==> v == series[LastAtOrBefore(series, final).value].value
    ensures LastAtOrBefore(series, final).None? ==> v == series[|series| - 1].value
  {
    var k := LastAtOrBefore(series, final);
    if k.Some? then series[k.value].value else series[|series| - 1].value
  }

  /** The coefficient: end over start, or 1 when the start index is not positive. */
  function RipteFactor(series: seq<IndexRow>, inicial: Date, final: Date): (c: real)
    requires |series| > 0
    ensures StartValue(series, inicial) > 0.0 ==> c * StartValue(series, inicial) == EndValue(series, final)
    ensures StartValue(series, inicial) <= 0.0 ==> c == 1.0
  {
    var start := StartValue(series, inicial);
    if start > 0.0 then EndValue(series, final) / start else 1.0
  }

  /** `actualizar_ripte`: the amount times the coefficient, plus 3% of that; an empty series leaves the amount as it is. */
  function RipteUpdate(monto: real, series: seq<IndexRow>, inicial: Date, final: Date): (r: real)
    ensures |series| == 0 ==> r == monto
    ensures |series| > 0 ==> r == 1.03 * (monto * RipteFactor(series, inicial, final))
  {
    if |series| == 0 then monto
    else
      var updated := monto * RipteFactor(series, inicial, final);
      var interest := updated * 0.03;
      updated + interest
  }

  /** The same start and end date, with some index row dated on or before it, give coefficient 1. */
  lemma SameDayFactorOne(series: seq<IndexRow>, d: Date)
    requires LastAtOrBefore(series, d).Some?
    ensures RipteFactor(series, d, d) == 1.0
  {
    var v := series[LastAtOrBefore(series, d).value].value;
    assert StartValue(series, d) == v && EndValue(series, d) == v;
    if v > 0.0 {
      DivSelf(v);
    }
  }

  lemma RatioAtLeastOne(a: real, b: real)
    requires 0.0 < a <= b
    ensures b / a >= 1.0
  {
    var c := b / a;
    assert c * a == b;
    assert (c - 1.0) * a == b - a;
    FactorSign(c - 1.0, a);
  }

  lemma DivSelf(v: real)
    requires v != 0.0
    ensures v / v == 1.0
  {
  }

  /** With an index that never falls and a period that does not run backwards, the coefficient is at least 1. */
  lemma RipteFactorAtLeastOne(series: seq<IndexRow>, inicial: Date, final: Date)
    requires |series| > 0 && NonDecreasing(series) && Le(inicial, final)
    ensures RipteFactor(series, inicial, final) >= 1.0
  {
    var start, end := StartValue(series, inicial), EndValue(series, final);
    assert start <= end by {
      var k1, k2 := LastAtOrBefore(series, inicial), LastAtOrBefore(series, final);
      if k1.Some? {
        LastAtOrBeforeMonotone(series, inicial, final);
        assert series[k1.value].value <= series[k2.value].value;
      } else if k2.Some? {
        assert series[0].value <= series[k2.value].value;
      } else {
        assert series[0].value <= series[|series| - 1].value;
      }
    }
    if start > 0.0 {
      RatioAtLeastOne(start, end);
    }
  }

  /** A non-negative amount updated over a period that does not run backwards, on an index that never falls, gains at least the 3%. */
  lemma RipteUpdateGrows(monto: real, series: seq<IndexRow>, inicial: Date, final: Date)
    requires |series| > 0 && NonDecreasing(series) && Le(inicial, final) && monto >= 0.0
    ensures RipteUpdate(monto, series, inicial, final) >= 1.03 * monto
  {
    var c := RipteFactor(series, inicial, final);
    RipteFactorAtLeastOne(series, inicial, final);
    assert monto * c >= monto * 1.0;
  }

  // ---------------------------------------------------------------------
  // `actualizar_tasa`
  // ---------------------------------------------------------------------

  /**
    A row of the rates table with the spellings the function accepts:
    `Desde`, else `desde`; `Hasta`, else `hasta`; `Valor`, else `valor`,
    else `tasa`. An absent column and an empty cell are both `None`.
   */
  datatype TasaRow = TasaRow(
    upperDesde: Option<Date>, lowerDesde: Option<Date>,
    upperHasta: Option<Date>, lowerHasta: Option<Date>,
    upperValor: Option<real>, lowerValor: Option<real>, tasa: Option<real>)

  predicate ValidTasaRow(row: TasaRow) {
    (row.upperDesde.Some? ==> Valid(row.upperDesde.value)) && (row.lowerDesde.Some? ==> Valid(row.lowerDesde.value))
    && (row.upperHasta.Some? ==> Valid(row.upperHasta.value)) && (row.lowerHasta.Some? ==> Valid(row.lowerHasta.value))
  }

  predicate ValidTasaRows(rows: seq<TasaRow>) {
    forall i :: 0 <= i < |rows| ==> ValidTasaRow(rows[i])
  }

  function FirstOf<T>(a: Option<T>, b: Option<T>): (r: Option<T>)
    ensures r.Some? <==> a.Some? || b.Some?
    ensures a.Some? ==> r == a
  {
    if a.Some? then a else b
  }

  /** The first day of the row, by column priority. */
  function RowFrom(row: TasaRow): (d: Option<Date>)
    requires ValidTasaRow(row)
    ensures d.Some? ==> Valid(d.value)
  {
    FirstOf(row.upperDesde, row.lowerDesde)
  }

  /** The last day of the row, by column priority. */
  function RowTo(row: TasaRow): (d: Option<Date>)
    requires ValidTasaRow(row)
    ensures d.Some? ==> Valid(d.value)
  {
    FirstOf(row.upperHasta, row.lowerHasta)
  }

  /** The monthly rate in percent, by column priority. */
  function TasaRate(row: TasaRow): Option<real> {
    FirstOf(row.upperValor, FirstOf(row.lowerValor, row.tasa))
  }

  /** A monthly rate prorated over `days` days of a 30-day month, without rounding; 0 for no shared day or no rate. */
  function Prorated(rate: Option<real>, days: int): real {
    if days == 0 || rate.None? then 0.0 else rate.value * (days as real / 30.0)
  }

  lemma ProratedNonNegative(rate: Option<real>, days: int)
    requires days >= 0 && (rate.Some? ==> rate.value >= 0.0)
    ensures Prorated(rate, days) >= 0.0
  {
    if days != 0 && rate.Some? {
      assert days as real / 30.0 >= 0.0;
    }
  }

  /** What a row adds: nothing without both ends, else its rate prorated over the days it shares with the period. */
  function TasaPortion(row: TasaRow, pmi: Date, final: Date): (p: real)
    requires ValidTasaRow(row) && Valid(pmi) && Valid(final)
    ensures RowFrom(row).None? || RowTo(row).None? ==> p == 0.0
    ensures TasaRate(row).None? ==> p == 0.0
  {
    var desde, hasta := RowFrom(row), RowTo(row);
    if desde.None? || hasta.None? then 0.0
    else Prorated(TasaRate(row), SharedDays(desde.value, hasta.value, pmi, final))
  }

  function TasaPortions(rows: seq<TasaRow>, pmi: Date, final: Date): (ps: seq<real>)
    requires ValidTasaRows(rows) && Valid(pmi) && Valid(final)
    ensures |ps| == |rows|
    ensures forall i :: 0 <= i < |rows| ==> ps[i] == TasaPortion(rows[i], pmi, final)
  {
    seq(|rows|, i requires 0 <= i < |rows| => TasaPortion(rows[i], pmi, final))
  }

  /** The plain sum of the portions, in table order. */
  function Total(ps: seq<real>): real {
    if |ps| == 0 then 0.0 else Total(ps[..|ps| - 1]) + ps[|ps| - 1]
  }

  /** One more portion adds itself to the total. */
  lemma TotalStep(ps: seq<real>, i: nat)
    requires i < |ps|
    ensures Total(ps[..i + 1]) == Total(ps[..i]) + ps[i]
  {
    assert ps[..i + 1][..i] == ps[..i];
  }

  /** The total of a table split in two is the sum of the totals: without rounding, the order of the rows does not matter. */
  lemma {:induction false} TotalAppend(a: seq<real>, b: seq<real>)
    ensures Total(a + b) == Total(a) + Total(b)
    decreases |b|
  {
    if |b| > 0 {
      assert (a + b)[..|a + b| - 1] == a + b[..|b| - 1];
      TotalAppend(a, b[..|b| - 1]);
    } else {
      assert a + b == a;
    }
  }

  /** Portions that are never negative add up to a total that is not negative. */
  lemma {:induction false} TotalNonNegative(ps: seq<real>)
    requires forall i :: 0 <= i < |ps| ==> ps[i] >= 0.0
    ensures Total(ps) >= 0.0
  {
    if |ps| > 0 {
      TotalNonNegative(ps[..|ps| - 1]);
    }
  }

  /** `actualizar_tasa`'s result: the amount grown by the summed percentage; an empty table leaves it as it is. */
  function TasaUpdate(monto: real, rows: seq<TasaRow>, pmi: Date, final: Date): (r: real)
    requires ValidTasaRows(rows) && Valid(pmi) && Valid(final)
    ensures |rows| == 0 ==> r == monto
  {
    if |rows| == 0 then monto else GrowBy(monto, Total(TasaPortions(rows, pmi, final)))
  }

  /** The amount grown by a percentage: the amount plus that percentage of it. */
  function GrowBy(monto: real, pct: real): (r: real)
    ensures r - monto == monto * pct / 100.0
    ensures pct == 0.0 ==> r == monto
    ensures monto >= 0.0 && pct >= 0.0 ==> r >= monto
    ensures monto > 0.0 && pct < 0.0 ==> r < monto
  {
    monto * (1.0 + pct / 100.0)
  }

  /** `actualizar_tasa`: the row loop, skipping rows without both ends, and the final growth of the amount. */
  method ActualizarTasa(monto: real, rows: seq<TasaRow>, pmi: Date, final: Date) returns (r: real)
    requires ValidTasaRows(rows) && Valid(pmi) && Valid(final)
    ensures r == TasaUpdate(monto, rows, pmi, final)
  {
    if |rows| == 0 {
      return monto;
    }
    ghost var ps := TasaPortions(rows, pmi, final);
    var total := 0.0;
    for i := 0 to |rows|
      invariant total == Total(ps[..i])
    {
      var aporte := RowPortion(rows[i], pmi, final);
      assert aporte == ps[i];
      TotalStep(ps, i);
      total := total + aporte;
    }
    assert ps[..|rows|] == ps;
    r := GrowBy(monto, total);
  }

  /** The body of the row loop: the ends by column priority, the shared days, the rate, the prorated portion. */
  method RowPortion(row: TasaRow, pmi: Date, final: Date) returns (p: real)
    requires ValidTasaRow(row) && Valid(pmi) && Valid(final)
    ensures p == TasaPortion(row, pmi, final)
  {
    var desde, hasta;
    if row.upperDesde.Some? {
      desde := row.upperDesde.value;
    } else if row.lowerDesde.Some? {
      desde := row.lowerDesde.value;
    } else {
      return 0.0;
    }
    if row.upperHasta.Some? {
      hasta := row.upperHasta.value;
    } else if row.lowerHasta.Some? {
      hasta := row.lowerHasta.value;
    } else {
      return 0.0;
    }
    var dias := SharedDays(desde, hasta, pmi, final);
    if dias == 0 {
      return 0.0;
    }
    p := Prorated(TasaRate(row), dias);
  }

  /** Rates that are never negative never shrink a non-negative amount. */
  lemma TasaUpdateGrows(monto: real, rows: seq<TasaRow>, pmi: Date, final: Date)
    requires ValidTasaRows(rows) && Valid(pmi) && Valid(final) && monto >= 0.0
    requires forall i :: 0 <= i < |rows| ==> (TasaRate(rows[i]).Some? ==> TasaRate(rows[i]).value >= 0.0)
    ensures TasaUpdate(monto, rows, pmi, final) >= monto
  {
    if |rows| > 0 {
      var ps := TasaPortions(rows, pmi, final);
      forall i | 0 <= i < |ps|
        ensures ps[i] >= 0.0
      {
        var row := rows[i];
        if RowFrom(row).Some? && RowTo(row).Some? {
          ProratedNonNegative(TasaRate(row), SharedDays(RowFrom(row).value, RowTo(row).value, pmi, final));
        }
      }
      TotalNonNegative(ps);
      var t := Total(ps);
      assert GrowBy(monto, t) == monto + monto * (t / 100.0);
      assert monto * (t / 100.0) >= 0.0;
    }
  }

  /**
    One rate row that covers the whole period, both ends included, grows the
    amount by its monthly rate prorated over the period's days as a share of
    a 30-day month, with nothing rounded.
   */
  lemma SingleRateUpdate(monto: real, row: TasaRow, rate: Option<real>, pmi: Date, final: Date, days: int)
    requires ValidTasaRow(row) && Valid(pmi) && Valid(final)
    requires RowFrom(row).Some? && RowTo(row).Some? && rate == TasaRate(row) && rate.Some?
    requires Le(RowFrom(row).value, pmi) && Le(pmi, final) && Le(final, RowTo(row).value)
    requires days == DaysBetween(pmi, final) + 1
    ensures TasaUpdate(monto, [row], pmi, final) == GrowBy(monto, rate.value * (days as real / 30.0))
  {
    SingleRatePortion(row, rate, pmi, final, days);
  }

  /** The single row is the only portion, and it covers every day of the period. */
  lemma SingleRatePortion(row: TasaRow, rate: Option<real>, pmi: Date, final: Date, days: int)
    requires ValidTasaRow(row) && Valid(pmi) && Valid(final)
    requires RowFrom(row).Some? && RowTo(row).Some? && rate == TasaRate(row) && rate.Some?
    requires Le(RowFrom(row).value, pmi) && Le(pmi, final) && Le(final, RowTo(row).value)
    requires days == DaysBetween(pmi, final) + 1
    ensures Total(TasaPortions([row], pmi, final)) == rate.value * (days as real / 30.0)
  {
    SharedDaysInside(RowFrom(row).value, RowTo(row).value, pmi, final);
    LeIffOrdinalLe(pmi, final);
    var ps := TasaPortions([row], pmi, final);
    assert ps[..0] == [];
  }
}
