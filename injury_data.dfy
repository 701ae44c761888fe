/**
  The three lookups of `DataManager` (apps/calculadora_lrt.py) that the
  work-injury calculation uses, on the tables the CSV loading leaves
  behind: the statutory minimum floor in force on a date, the RIPTE
  coefficient between the first manifestation of the injury (PMI) and the
  last published month, and the lending-rate ("tasa activa") accrual over
  a period.
 */
module InjuryData {
  import opened Options
  import opened Dates
  import opened Rounding
  import opened IndexSeries

  // ---------------------------------------------------------------------
  // Minimum floor: `get_piso_minimo`
  // ---------------------------------------------------------------------

  /** A row of the floors table: validity from `desde`, up to `hasta` inclusive or open-ended, amount and the resolution that set it. */
  datatype FloorRow = FloorRow(desde: Date, hasta: Option<Date>, piso: real, norma: string)

  /** The floor found for a date: its amount and its resolution. */
  datatype Floor = Floor(amount: real, norma: string)

  /** A row with an end date whose inclusive range holds `d`. */
  predicate BoundedCovers(row: FloorRow, d: Date) {
    row.hasta.Some? && Le(row.desde, d) && Le(d, row.hasta.value)
  }

  /** An open-ended row already in force on `d`. */
  predicate OpenCovers(row: FloorRow, d: Date) {
    row.hasta.None? && Le(row.desde, d)
  }

  /** The position of the first row, from `i` on, with an end date whose range holds `d`. */
  function FirstBounded(rows: seq<FloorRow>, d: Date, i: nat): (k: Option<nat>)
    requires i <= |rows|
    ensures k.Some? ==> i <= k.value < |rows| && BoundedCovers(rows[k.value], d)
    ensures k.Some? ==> forall j :: i <= j < k.value ==> !BoundedCovers(rows[j], d)
    ensures k.None? <==> forall j :: i <= j < |rows| ==> !BoundedCovers(rows[j], d)
    decreases |rows| - i
  {
    if i == |rows| then None
    else if BoundedCovers(rows[i], d) then Some(i)
    else FirstBounded(rows, d, i + 1)
  }

  /** The position of the last open-ended row among the first `n` that is in force on `d`. */
  function LastOpen(rows: seq<FloorRow>, d: Date, n: nat): (k: Option<nat>)
    requires n <= |rows|
    ensures k.Some? ==> k.value < n && OpenCovers(rows[k.value], d)
    ensures k.Some? ==> forall j :: k.value < j < n ==> !OpenCovers(rows[j], d)
    ensures k.None? <==> forall j :: 0 <= j < n ==> !OpenCovers(rows[j], d)
  {
    if n == 0 then None
    else if OpenCovers(rows[n - 1], d) then Some(n - 1)
    else LastOpen(rows, d, n - 1)
  }

  function FloorOf(row: FloorRow): Floor {
    Floor(row.piso, row.norma)
  }

  /**
    What `get_piso_minimo(d)` answers: the first bounded row holding `d`;
    failing that, the last open-ended row in force; failing that, nothing
    (`(None, "")`, also for an empty table).
   */
  function FloorFor(rows: seq<FloorRow>, d: Date): (r: Option<Floor>)
    ensures r.None? <==> forall j :: 0 <= j < |rows| ==> !BoundedCovers(rows[j], d) && !OpenCovers(rows[j], d)
    ensures r.Some? ==>
              exists k :: (0 <= k < |rows| && r.value == FloorOf(rows[k]) &&
                (BoundedCovers(rows[k], d) || (OpenCovers(rows[k], d) && forall j :: 0 <= j < |rows| ==> !BoundedCovers(rows[j], d))))
    ensures FirstBounded(rows, d, 0).Some? ==> r == Some(FloorOf(rows[FirstBounded(rows, d, 0).value]))
    ensures FirstBounded(rows, d, 0).None? && LastOpen(rows, d, |rows|).Some? ==>
              r == Some(FloorOf(rows[LastOpen(rows, d, |rows|).value]))
  {
    var b := FirstBounded(rows, d, 0);
    if b.Some? then Some(FloorOf(rows[b.value]))
    else
      var o := LastOpen(rows, d, |rows|);
      if o.Some? then Some(FloorOf(rows[o.value])) else None
  }

  /** `get_piso_minimo`: one pass over the rows, remembering the latest open-ended candidate. */
  method GetFloor(rows: seq<FloorRow>, d: Date) returns (r: Option<Floor>)
    ensures r == FloorFor(rows, d)
  {
    if |rows| == 0 {
      return None;
    }
    var candidate: Option<Floor> := None;
    var i := 0;
    while i < |rows|
      invariant 0 <= i <= |rows|
      invariant FirstBounded(rows, d, 0) == FirstBounded(rows, d, i)
      invariant candidate == (var o := LastOpen(rows, d, i); if o.Some? then Some(FloorOf(rows[o.value])) else None)
    {
      var row := rows[i];
      if row.hasta.None? {
        if Le(row.desde, d) {
          candidate := Some(Floor(row.piso, row.norma));
        }
      } else {
        if Le(row.desde, d) && Le(d, row.hasta.value) {
          return Some(Floor(row.piso, row.norma));
        }
      }
      i := i + 1;
    }
    return candidate;
  }

  /** A floor is found exactly when some bounded row holds the date or some open-ended row is in force on it. */
  lemma FloorForFound(rows: seq<FloorRow>, d: Date)
    ensures FloorFor(rows, d).Some? <==>
              exists j :: 0 <= j < |rows| && (BoundedCovers(rows[j], d) || OpenCovers(rows[j], d))
  {
    if exists j :: 0 <= j < |rows| && (BoundedCovers(rows[j], d) || OpenCovers(rows[j], d)) {
      var j :| 0 <= j < |rows| && (BoundedCovers(rows[j], d) || OpenCovers(rows[j], d));
      assert FirstBounded(rows, d, 0).Some? || LastOpen(rows, d, |rows|).Some?;
    }
  }

  /** A bounded row holding the date beats every open-ended row, wherever it sits in the table. */
  lemma BoundedWins(rows: seq<FloorRow>, d: Date, k: nat)
    requires k < |rows| && BoundedCovers(rows[k], d)
    requires forall j :: 0 <= j < k ==> !BoundedCovers(rows[j], d)
    ensures FloorFor(rows, d) == Some(Floor(rows[k].piso, rows[k].norma))
  {
    assert FirstBounded(rows, d, 0).Some?;
  }

  // ---------------------------------------------------------------------
  // RIPTE coefficient: `get_ripte_coeficiente`
  // ---------------------------------------------------------------------

  /** The coefficient and the two index values it was taken from. */
  datatype Coefficient = Coefficient(coefficient: real, atPmi: real, atFinal: real)

  /** The index value used for the PMI: the last row dated on or before it, or the first row when all are later. */
  function ValueAtPmi(series: seq<IndexRow>, pmi: Date): real
    requires |series| > 0
  {
    var k := LastAtOrBefore(series, pmi);
    if k.Some? then series[k.value].value else series[0].value
  }

  /** Final over initial index, or 1 when the initial one is not positive. */
  function Ratio(atFinal: real, atPmi: real): (r: real)
    ensures atPmi > 0.0 ==> r * atPmi == atFinal
    ensures atPmi <= 0.0 ==> r == 1.0
  {
    if atPmi > 0.0 then atFinal / atPmi else 1.0
  }

  /**
    `get_ripte_coeficiente(pmi, final)`. The final value is the last row of
    the series whatever `final` is: the argument is not used.
   */
  function RipteCoefficient(series: seq<IndexRow>, pmi: Date, final: Date): (r: Coefficient)
    ensures |series| == 0 ==> r == Coefficient(1.0, 0.0, 0.0)
  {
    if |series| == 0 then Coefficient(1.0, 0.0, 0.0)
    else
      var atPmi := ValueAtPmi(series, pmi);
      var atFinal := series[|series| - 1].value;
      Coefficient(Ratio(atFinal, atPmi), atPmi, atFinal)
  }

  /** The two values come from the rows the selection rule names, and the coefficient relates them. */
  lemma RipteCoefficientRows(series: seq<IndexRow>, pmi: Date, final: Date)
    requires |series| > 0
    ensures var r := RipteCoefficient(series, pmi, final);
            && r.atFinal == series[|series| - 1].value
            && (LastAtOrBefore(series, pmi).Some? ==> r.atPmi == series[LastAtOrBefore(series, pmi).value].value)
            && (LastAtOrBefore(series, pmi).None? ==> r.atPmi == series[0].value)
            && (r.atPmi > 0.0 ==> r.coefficient * r.atPmi == r.atFinal)
            && (r.atPmi <= 0.0 ==> r.coefficient == 1.0)
  {
  }

  /** A PMI on or after the last published month gives coefficient 1. */
  lemma RipteCoefficientAtLatest(series: seq<IndexRow>, pmi: Date, final: Date)
    requires |series| > 0 && Le(series[|series| - 1].fecha, pmi)
    ensures RipteCoefficient(series, pmi, final).coefficient == 1.0
  {
    LastAtOrBeforeLatest(series, pmi);
    var v := series[|series| - 1].value;
    assert ValueAtPmi(series, pmi) == v;
    if v > 0.0 {
      assert v / v == 1.0;
    }
  }

  /** With an index that never falls, the coefficient is at least 1. */
  lemma RipteCoefficientAtLeastOne(series: seq<IndexRow>, pmi: Date, final: Date)
    requires NonDecreasing(series)
    ensures RipteCoefficient(series, pmi, final).coefficient >= 1.0
  {
    if |series| > 0 {
      var r := RipteCoefficient(series, pmi, final);
      var k := LastAtOrBefore(series, pmi);
      assert r.atPmi <= r.atFinal by {
        if k.Some? {
          assert series[k.value].value <= series[|series| - 1].value;
        } else {
          assert series[0].value <= series[|series| - 1].value;
        }
      }
      if r.atPmi > 0.0 {
        assert r.coefficient * r.atPmi == r.atFinal;
      }
    }
  }

  // ---------------------------------------------------------------------
  // Lending-rate accrual: `calcular_tasa_activa`
  // ---------------------------------------------------------------------

  /**
    A row of the rates table: `desde` (or, without it, `fecha`), `hasta`,
    and the monthly rate in percent from the `tasa` or else the `valor`
    column. A missing cell is `None`.
   */
  datatype RateRow = RateRow(desde: Option<Date>, fecha: Date, hasta: Option<Date>, tasa: Option<real>, valor: Option<real>)

  predicate ValidRateRow(row: RateRow) {
    Valid(row.fecha) && (row.desde.Some? ==> Valid(row.desde.value)) && (row.hasta.Some? ==> Valid(row.hasta.value))
  }

  /** The first day the row covers. */
  function RowStart(row: RateRow): (d: Date)
    requires ValidRateRow(row)
    ensures Valid(d)
  {
    if row.desde.Some? then row.desde.value else row.fecha
  }

  /** The last day the row covers: `hasta`, or the last day of the start's month. */
  function RowEnd(row: RateRow): (d: Date)
    requires ValidRateRow(row)
    ensures Valid(d)
  {
    if row.hasta.Some? then row.hasta.value
    else
      var s := RowStart(row);
      Date(s.year, s.month, DaysInMonth(s))
  }

  /** The monthly rate in percent, or `None` when both columns are empty. */
  function RowRate(row: RateRow): Option<real> {
    if row.tasa.Some? then row.tasa else row.valor
  }

  /** The number of days, both ends included, that the row shares with `[pmi, final]`; 0 when they do not meet. */
  function OverlapDays(row: RateRow, pmi: Date, final: Date): (n: int)
    requires ValidRateRow(row) && Valid(pmi) && Valid(final)
    ensures n >= 0
  {
    SharedDays(RowStart(row), RowEnd(row), pmi, final)
  }

  /**
    The percentage a row adds: its rate times the shared days over 30,
    rounded to cents; `None` when it shares no day with the period or has
    no rate, and it then adds nothing, not even a rounding step.
   */
  function Contribution(row: RateRow, pmi: Date, final: Date): (c: Option<real>)
    requires ValidRateRow(row) && Valid(pmi) && Valid(final)
    ensures c.Some? ==> IsCents(c.value)
  {
    Portion(RowRate(row), OverlapDays(row, pmi, final))
  }

  /** A monthly rate prorated over `days` days of a 30-day month, rounded to cents. */
  function Portion(rate: Option<real>, days: int): (c: Option<real>)
    ensures c.Some? ==> IsCents(c.value)
  {
    if days == 0 || rate.None? then None
    else Some(Round2(rate.value * (days as real / 30.0)))
  }

  predicate ValidRates(rows: seq<RateRow>) {
    forall i :: 0 <= i < |rows| ==> ValidRateRow(rows[i])
  }

  /** What each row of the table adds, in table order. */
  function Contributions(rows: seq<RateRow>, pmi: Date, final: Date): (cs: seq<Option<real>>)
    requires ValidRates(rows) && Valid(pmi) && Valid(final)
    ensures |cs| == |rows|
    ensures forall i :: 0 <= i < |rows| ==> cs[i] == Contribution(rows[i], pmi, final)
  {
    seq(|rows|, i requires 0 <= i < |rows| => Contribution(rows[i], pmi, final))
  }

  /** The running total over the contributions, re-rounded after every addition; a missing one leaves it as it is. */
  function Accrue(cs: seq<Option<real>>): (t: real)
    ensures IsCents(t)
  {
    if |cs| == 0 then 0.0 else AddPortion(Accrue(cs[..|cs| - 1]), cs[|cs| - 1])
  }

  /** One step of the running total: a contribution is added and the sum re-rounded; a missing one leaves the total as it is. */
  function AddPortion(total: real, c: Option<real>): (t: real)
    ensures IsCents(total) ==> IsCents(t)
  {
    match c
    case Some(v) => Round2(total + v)
    case None => total
  }

  /** The updated capital: the base grown by the accrued percentage, rounded. */
  function Grown(capital: real, pct: real): (r: real)
    ensures IsCents(r)
    ensures -0.005 <= r - (capital + capital * pct / 100.0) <= 0.005
  {
    assert capital * (1.0 + pct / 100.0) == capital + capital * pct / 100.0;
    Round2(capital * (1.0 + pct / 100.0))
  }

  /**
    `calcular_tasa_activa(pmi, final, capital)`: the accrued percentage and
    the updated capital; an empty table gives `(0, capital)` as it is.
   */
  method LendingRateAccrual(rows: seq<RateRow>, pmi: Date, final: Date, capital: real) returns (pct: real, updated: real)
    requires ValidRates(rows) && Valid(pmi) && Valid(final)
    ensures |rows| == 0 ==> pct == 0.0 && updated == capital
    ensures |rows| > 0 ==> pct == Accrue(Contributions(rows, pmi, final)) && updated == Grown(capital, pct)
  {
    if |rows| == 0 {
      return 0.0, capital;
    }
    ghost var cs := Contributions(rows, pmi, final);
    var total := 0.0;
    for i := 0 to |rows|
      invariant total == Accrue(cs[..i])
    {
      var aporte := RowContribution(rows[i], pmi, final);
      assert aporte == cs[i];
      AccrueStep(cs, i);
      total := AddPortion(total, aporte);
    }
    assert cs[..|rows|] == cs;
    pct := total;
    updated := Grown(capital, pct);
  }

  /** One more contribution: added and re-rounded, or skipped. */
  lemma AccrueStep(cs: seq<Option<real>>, i: nat)
    requires i < |cs|
    ensures Accrue(cs[..i + 1]) == AddPortion(Accrue(cs[..i]), cs[i])
  {
    assert cs[..i + 1][..i] == cs[..i];
  }

  /** The body of the loop up to the addition: the shared days and the rate of one row, prorated and rounded. */
  method RowContribution(row: RateRow, pmi: Date, final: Date) returns (c: Option<real>)
    requires ValidRateRow(row) && Valid(pmi) && Valid(final)
    ensures c == Contribution(row, pmi, final)
  {
    var inicio := Max(pmi, RowStart(row));
    var fin := Min(final, RowEnd(row));
    if !Le(inicio, fin) {
      return None;
    }
    LeIffOrdinalLe(inicio, fin);
    var dias := DaysBetween(inicio, fin) + 1;
    c := Portion(RowRate(row), dias);
  }

  /** Every day counted for a row lies both in the row's range and in the period. */
  lemma OverlapWithinPeriod(row: RateRow, pmi: Date, final: Date)
    requires ValidRateRow(row) && Valid(pmi) && Valid(final)
    ensures OverlapDays(row, pmi, final) <= DaysBetween(pmi, final) + 1 || OverlapDays(row, pmi, final) == 0
    ensures OverlapDays(row, pmi, final) <= DaysBetween(RowStart(row), RowEnd(row)) + 1 || OverlapDays(row, pmi, final) == 0
  {
    var inicio := Max(pmi, RowStart(row));
    var fin := Min(final, RowEnd(row));
    LeIffOrdinalLe(pmi, RowStart(row));
    LeIffOrdinalLe(final, RowEnd(row));
    LeIffOrdinalLe(RowEnd(row), final);
    LeIffOrdinalLe(RowStart(row), pmi);
  }

  /** A period that ends before it starts shares no day with any row, so no row contributes. */
  lemma EmptyPeriodNoContribution(row: RateRow, pmi: Date, final: Date)
    requires ValidRateRow(row) && Valid(pmi) && Valid(final)
    requires Lt(final, pmi)
    ensures Contribution(row, pmi, final).None?
  {
    var inicio := Max(pmi, RowStart(row));
    var fin := Min(final, RowEnd(row));
    LeIffOrdinalLe(pmi, inicio);
    LeIffOrdinalLe(fin, final);
    LeIffOrdinalLe(inicio, fin);
    LtIffOrdinalLt(final, pmi);
    assert OverlapDays(row, pmi, final) == 0;
  }

  /** Without any contribution the total stays 0. */
  lemma {:induction false} AccrueNothing(cs: seq<Option<real>>)
    requires forall i :: 0 <= i < |cs| ==> cs[i].None?
    ensures Accrue(cs) == 0.0
  {
    if |cs| > 0 {
      AccrueNothing(cs[..|cs| - 1]);
    }
  }

  /** A period that ends before it starts accrues nothing, and the capital is only rounded. */
  lemma EmptyPeriodAccruesNothing(rows: seq<RateRow>, pmi: Date, final: Date, capital: real)
    requires ValidRates(rows) && Valid(pmi) && Valid(final)
    requires Lt(final, pmi)
    ensures Accrue(Contributions(rows, pmi, final)) == 0.0
    ensures Grown(capital, 0.0) == Round2(capital)
  {
    var cs := Contributions(rows, pmi, final);
    forall i | 0 <= i < |rows|
      ensures cs[i].None?
    {
      EmptyPeriodNoContribution(rows[i], pmi, final);
    }
    AccrueNothing(cs);
  }

  /** Non-negative contributions never make the total negative. */
  lemma {:induction false} AccrueNonNegative(cs: seq<Option<real>>)
    requires forall i :: 0 <= i < |cs| ==> (cs[i].Some? ==> cs[i].value >= 0.0)
    ensures Accrue(cs) >= 0.0
  {
    if |cs| > 0 {
      var init := cs[..|cs| - 1];
      AccrueNonNegative(init);
      if cs[|cs| - 1].Some? {
        Round2Idempotent(0.0);
        Round2Monotone(0.0, Accrue(init) + cs[|cs| - 1].value);
      }
    }
  }

  /** A non-negative rate never contributes a negative percentage. */
  lemma PortionNonNegative(rate: Option<real>, days: int)
    requires days >= 0
    requires rate.Some? ==> rate.value >= 0.0
    ensures Portion(rate, days).Some? ==> Portion(rate, days).value >= 0.0
  {
    if days != 0 && rate.Some? {
      ProductNonNegative(rate.value, days as real / 30.0);
      Round2Idempotent(0.0);
      Round2Monotone(0.0, rate.value * (days as real / 30.0));
    }
  }

  /** With non-negative rates the accrued percentage is non-negative. */
  lemma AccruedPctNonNegative(rows: seq<RateRow>, pmi: Date, final: Date)
    requires ValidRates(rows) && Valid(pmi) && Valid(final)
    requires forall i :: 0 <= i < |rows| ==> (RowRate(rows[i]).Some? ==> RowRate(rows[i]).value >= 0.0)
    ensures Accrue(Contributions(rows, pmi, final)) >= 0.0
  {
    var cs := Contributions(rows, pmi, final);
    forall i | 0 <= i < |rows|
      ensures cs[i].Some? ==> cs[i].value >= 0.0
    {
      PortionNonNegative(RowRate(rows[i]), OverlapDays(rows[i], pmi, final));
    }
    AccrueNonNegative(cs);
  }

  lemma ProductNonNegative(a: real, b: real)
    requires a >= 0.0 && b >= 0.0
    ensures a * b >= 0.0
  {
  }

  /** With a non-negative capital and total, the updated capital is at least the rounded capital. */
  lemma GrownAtLeast(capital: real, pct: real)
    requires capital >= 0.0 && pct >= 0.0
    ensures Grown(capital, pct) >= Round2(capital)
  {
    assert capital * (1.0 + pct / 100.0) == capital + capital * pct / 100.0;
    Round2Monotone(capital, capital * (1.0 + pct / 100.0));
  }

  /**
    One rate row that covers the whole period, both ends included, accrues
    its monthly rate prorated over the period's days as a share of a 30-day
    month, rounded to cents once.
   */
  lemma SingleRateAccrual(row: RateRow, rate: Option<real>, pmi: Date, final: Date, days: int)
    requires ValidRateRow(row) && Valid(pmi) && Valid(final) && rate == RowRate(row) && rate.Some?
    requires Le(RowStart(row), pmi) && Le(pmi, final) && Le(final, RowEnd(row))
    requires days == DaysBetween(pmi, final) + 1
    ensures Accrue(Contributions([row], pmi, final)) == Round2(rate.value * (days as real / 30.0))
  {
    SingleRateContribution(row, rate, pmi, final);
    AccrueOnePortion(rate, days);
  }

  /** The single row is the only contribution, and it covers every day of the period. */
  lemma SingleRateContribution(row: RateRow, rate: Option<real>, pmi: Date, final: Date)
    requires ValidRateRow(row) && Valid(pmi) && Valid(final) && rate == RowRate(row) && rate.Some?
    requires Le(RowStart(row), pmi) && Le(pmi, final) && Le(final, RowEnd(row))
    ensures DaysBetween(pmi, final) + 1 > 0
    ensures Contributions([row], pmi, final) == [Portion(rate, DaysBetween(pmi, final) + 1)]
  {
    SharedDaysInside(RowStart(row), RowEnd(row), pmi, final);
    LeIffOrdinalLe(pmi, final);
    var cs := Contributions([row], pmi, final);
    assert |cs| == 1 && cs[0] == Portion(rate, OverlapDays(row, pmi, final));
  }

  /** A table with one contribution accrues that contribution, rounded once. */
  lemma AccrueOnePortion(rate: Option<real>, days: int)
    requires rate.Some? && days != 0
    ensures Accrue([Portion(rate, days)]) == Round2(rate.value * (days as real / 30.0))
  {
    PortionOfDays(rate, days);
    AccrueRounded(rate.value * (days as real / 30.0));
  }

  lemma PortionOfDays(rate: Option<real>, days: int)
    requires rate.Some? && days != 0
    ensures Portion(rate, days) == Some(Round2(rate.value * (days as real / 30.0)))
  {
  }

  lemma AccrueRounded(x: real)
    ensures Accrue([Some(Round2(x))]) == Round2(x)
  {
    assert [Some(Round2(x))][..0] == [];
    Round2Twice(x);
  }
}
