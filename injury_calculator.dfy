/**
  `Calculator` (apps/calculadora_lrt.py): the work-injury capital of the
  statutory formula (Ley 24.557 art. 14), raised to the proportional
  minimum floor when it falls short, the optional 20% add-on (Ley 26.773
  art. 3), and its two updates to the final date: by the RIPTE coefficient
  plus a pure 3% yearly interest, and by the lending rate. Then the choice
  of the update that favours the worker.
 */
module InjuryCalculator {
  import opened Options
  import opened Dates
  import opened Rounding
  import opened IndexSeries
  import opened InjuryData
  import opened RealArith

  /** `InputData`: the dates, the monthly base income (IBM), the age, the incapacity percentage and the add-on flag. */
  datatype InjuryInput = InjuryInput(pmi: Date, final: Date, ibm: real, edad: int, incapacidad: real, with20: bool)

  /** `_calcular_capital_formula`: IBM x 53 x 65/age x incapacity/100, rounded to cents. */
  function CapitalFormula(ibm: real, edad: int, pct: real): (r: real)
    requires edad != 0
    ensures IsCents(r)
  {
    Round2(FormulaAmount(ibm, edad, pct))
  }

  /** The statutory formula before rounding. */
  function FormulaAmount(ibm: real, edad: int, pct: real): real
    requires edad != 0
  {
    ibm * 53.0 * (65.0 / edad as real) * (pct / 100.0)
  }

  /** A higher income never gives a lower capital. */
  lemma CapitalFormulaGrowsWithIncome(ibm1: real, ibm2: real, edad: int, pct: real)
    requires edad > 0 && pct >= 0.0 && ibm1 <= ibm2
    ensures CapitalFormula(ibm1, edad, pct) <= CapitalFormula(ibm2, edad, pct)
  {
    var f := 65.0 / edad as real;
    MulMonotone(ibm1, ibm2, 53.0);
    MulMonotone(ibm1 * 53.0, ibm2 * 53.0, f);
    MulMonotone(ibm1 * 53.0 * f, ibm2 * 53.0 * f, pct / 100.0);
    Round2Monotone(FormulaAmount(ibm1, edad, pct), FormulaAmount(ibm2, edad, pct));
  }

  /** The factor 65/age falls as the age grows. */
  lemma AgeFactorFalls(edad1: int, edad2: int)
    requires 0 < edad1 <= edad2
    ensures 65.0 / edad2 as real <= 65.0 / edad1 as real
  {
    var e1, e2 := edad1 as real, edad2 as real;
    var f1, f2 := 65.0 / e1, 65.0 / e2;
    assert f1 * e1 == 65.0 && f2 * e2 == 65.0;
    MulMonotone(e1, e2, f1);
    assert (f1 - f2) * e2 == f1 * e2 - 65.0;
    FactorSign(f1 - f2, e2);
  }

  /** An older worker never gets a higher capital. */
  lemma CapitalFormulaFallsWithAge(ibm: real, edad1: int, edad2: int, pct: real)
    requires 0 < edad1 <= edad2 && ibm >= 0.0 && pct >= 0.0
    ensures CapitalFormula(ibm, edad2, pct) <= CapitalFormula(ibm, edad1, pct)
  {
    FormulaFallsWithAge(ibm, edad1, edad2, pct);
    Round2Monotone(FormulaAmount(ibm, edad2, pct), FormulaAmount(ibm, edad1, pct));
  }

  lemma FormulaFallsWithAge(ibm: real, edad1: int, edad2: int, pct: real)
    requires 0 < edad1 <= edad2 && ibm >= 0.0 && pct >= 0.0
    ensures FormulaAmount(ibm, edad2, pct) <= FormulaAmount(ibm, edad1, pct)
  {
    var f1, f2 := 65.0 / edad1 as real, 65.0 / edad2 as real;
    AgeFactorFalls(edad1, edad2);
    var base := ibm * 53.0;
    MulNonNegative(ibm, 53.0);
    MulMonotone(f2, f1, base);
    assert base * f2 <= base * f1;
    MulMonotone(base * f2, base * f1, pct / 100.0);
  }

  /** `_aplicar_piso_minimo`'s answer: the capital, whether the floor was applied, the message, and the proportional floor. */
  datatype FloorOutcome = FloorOutcome(capital: real, applied: bool, info: string, proportional: real)

  /** The floor scaled by the incapacity percentage, rounded to cents. */
  function ProportionalFloor(amount: real, pct: real): (r: real)
    ensures IsCents(r)
  {
    Round2(amount * (pct / 100.0))
  }

  /**
    `_aplicar_piso_minimo`: with no floor the formula stands; otherwise the
    capital is the larger of the formula and the proportional floor, and the
    floor counts as applied only when it is strictly larger.
   */
  function ApplyFloor(capitalFormula: real, floor: Option<Floor>, pct: real): (r: FloorOutcome)
    ensures floor.None? ==> r == FloorOutcome(capitalFormula, false, "No se encontró piso mínimo para la fecha", 0.0)
    ensures floor.Some? ==> r.proportional == ProportionalFloor(floor.value.amount, pct)
    ensures floor.Some? ==> (r.applied <==> capitalFormula < r.proportional)
    ensures floor.Some? ==> r.capital >= r.proportional
    ensures r.capital >= capitalFormula
    ensures r.capital == capitalFormula || (floor.Some? && r.capital == r.proportional)
  {
    match floor
    case None => FloorOutcome(capitalFormula, false, "No se encontró piso mínimo para la fecha", 0.0)
    case Some(f) =>
      var proportional := ProportionalFloor(f.amount, pct);
      if capitalFormula >= proportional then
        FloorOutcome(capitalFormula, false, "Supera piso mínimo " + f.norma, proportional)
      else
        FloorOutcome(proportional, true, "Se aplica piso mínimo " + f.norma, proportional)
  }

  /** The message names the resolution of the floor that was compared. */
  lemma ApplyFloorMessage(capitalFormula: real, f: Floor, pct: real)
    ensures var r := ApplyFloor(capitalFormula, Some(f), pct);
            r.info == (if r.applied then "Se aplica piso mínimo " else "Supera piso mínimo ") + f.norma
  {
  }

  /** The capital after the floor is always a whole number of cents, since both candidates are. */
  lemma ApplyFloorCents(capitalFormula: real, floor: Option<Floor>, pct: real)
    requires IsCents(capitalFormula)
    ensures IsCents(ApplyFloor(capitalFormula, floor, pct).capital)
  {
  }

  /** `Results`, without the inflation figure. */
  datatype InjuryResult = InjuryResult(
    capitalFormula: real,
    capitalBase: real,
    floorApplied: bool,
    floorInfo: string,
    floorAmount: real,
    floorProportional: real,
    floorNorma: string,
    additional20: real,
    ripte: Coefficient,
    ripteUpdated: real,
    interest: real,
    totalRipte: real,
    ratePct: real,
    totalRate: real)

  /** The 20% add-on: a fifth of the capital, rounded, when asked for. */
  function Additional(capital: real, with20: bool): (r: real)
    ensures IsCents(r)
    ensures !with20 ==> r == 0.0
    ensures with20 && capital >= 0.0 ==> r >= 0.0
  {
    if with20 then
      Round2Idempotent(0.0);
      if capital >= 0.0 then
        Round2Monotone(0.0, capital * 0.20);
        Round2(capital * 0.20)
      else
        Round2(capital * 0.20)
    else
      Round2Idempotent(0.0);
      0.0
  }

  /** The pure interest: 3% a year over the elapsed days, on a 365-day year, rounded. */
  function Interest(amount: real, days: int): (r: real)
    ensures IsCents(r)
    ensures days == 0 ==> r == 0.0
  {
    Round2Idempotent(0.0);
    Round2(amount * 0.03 * (days as real / 365.0))
  }

  /** The capital side of a settlement: the formula, the floor comparison, the add-on and the base capital. */
  datatype BaseCapital = BaseCapital(formula: real, outcome: FloorOutcome, additional: real, base: real)

  /**
    The first half of `calcular_indemnizacion`: the formula, raised to the
    proportional floor when short of it, plus the add-on, rounded.
   */
  function BaseCapitalOf(input: InjuryInput, floor: Option<Floor>): (b: BaseCapital)
    requires input.edad != 0
    ensures b.formula == CapitalFormula(input.ibm, input.edad, input.incapacidad)
    ensures b.outcome == ApplyFloor(b.formula, floor, input.incapacidad)
    ensures b.additional == Additional(b.outcome.capital, input.with20)
    ensures IsCents(b.base) && b.base == b.outcome.capital + b.additional
    ensures !input.with20 ==> b.base == b.outcome.capital
  {
    var formula := CapitalFormula(input.ibm, input.edad, input.incapacidad);
    var outcome := ApplyFloor(formula, floor, input.incapacidad);
    var additional := Additional(outcome.capital, input.with20);
    ApplyFloorCents(formula, floor, input.incapacidad);
    Round2OfCentsSum(outcome.capital, additional);
    BaseCapital(formula, outcome, additional, Round2(outcome.capital + additional))
  }

  /** The RIPTE side of a settlement: the updated capital, the pure interest and their sum. */
  datatype RipteUpdate = RipteUpdate(updated: real, interest: real, total: real)

  /**
    The second half of `calcular_indemnizacion`: the base capital times the
    RIPTE coefficient, rounded, plus 3% a year over the elapsed days.
   */
  function UpdateByRipte(capitalBase: real, coefficient: real, days: int): (u: RipteUpdate)
    ensures u.updated == Round2(capitalBase * coefficient)
    ensures u.interest == Interest(u.updated, days)
    ensures IsCents(u.total) && u.total == u.updated + u.interest
    ensures days == 0 ==> u.interest == 0.0 && u.total == u.updated
    ensures coefficient == 1.0 ==> u.updated == Round2(capitalBase)
  {
    var updated := Round2(capitalBase * coefficient);
    var interest := Interest(updated, days);
    Round2OfCentsSum(updated, interest);
    assert updated + 0.0 == updated;
    RipteUpdate(updated, interest, Round2(updated + interest))
  }

  /** `calcular_indemnizacion`, without the inflation figure. */
  method ComputeIndemnity(input: InjuryInput, floors: seq<FloorRow>, series: seq<IndexRow>, rates: seq<RateRow>)
    returns (r: InjuryResult)
    requires input.edad != 0
    requires Valid(input.pmi) && Valid(input.final) && ValidRates(rates)
    ensures var floor := FloorFor(floors, input.pmi);
            var b := BaseCapitalOf(input, floor);
            && r.capitalFormula == b.formula
            && r.floorApplied == b.outcome.applied
            && r.floorInfo == b.outcome.info
            && r.floorProportional == b.outcome.proportional
            && r.additional20 == b.additional
            && r.capitalBase == b.base
            && r.floorAmount == (if floor.Some? then floor.value.amount else 0.0)
            && r.floorNorma == (if floor.Some? then floor.value.norma else "")
    ensures r.ripte == RipteCoefficient(series, input.pmi, input.final)
    ensures var u := UpdateByRipte(r.capitalBase, r.ripte.coefficient, DaysBetween(input.pmi, input.final));
            && r.ripteUpdated == u.updated
            && r.interest == u.interest
            && r.totalRipte == u.total
    ensures |rates| == 0 ==> r.ratePct == 0.0 && r.totalRate == r.capitalBase
    ensures |rates| > 0 ==> r.ratePct == Accrue(Contributions(rates, input.pmi, input.final)) && r.totalRate == Grown(r.capitalBase, r.ratePct)
  {
    var floor := GetFloor(floors, input.pmi);
    var b := BaseCapitalOf(input, floor);
    var coefficient := RipteCoefficient(series, input.pmi, input.final);
    var u := UpdateByRipte(b.base, coefficient.coefficient, DaysBetween(input.pmi, input.final));
    var ratePct, totalRate := LendingRateAccrual(rates, input.pmi, input.final, b.base);
    r := InjuryResult(
      b.formula, b.base, b.outcome.applied, b.outcome.info,
      if floor.Some? then floor.value.amount else 0.0, b.outcome.proportional,
      if floor.Some? then floor.value.norma else "",
      b.additional, coefficient, u.updated, u.interest, u.total, ratePct, totalRate);
  }

  /** Without the add-on, the base capital is exactly the capital after the floor. */
  lemma BaseWithoutAdditional(capitalFormula: real, floor: Option<Floor>, pct: real)
    requires IsCents(capitalFormula)
    ensures var c := ApplyFloor(capitalFormula, floor, pct).capital;
            Round2(c + Additional(c, false)) == c
  {
    var c := ApplyFloor(capitalFormula, floor, pct).capital;
    ApplyFloorCents(capitalFormula, floor, pct);
    assert c + 0.0 == c;
    Round2Idempotent(c);
  }

  /** With the add-on on a non-negative capital, the base capital is at least the capital after the floor. */
  lemma BaseWithAdditional(c: real)
    requires IsCents(c) && c >= 0.0
    ensures Round2(c + Additional(c, true)) >= c
  {
    var a := Additional(c, true);
    Round2OfCentsSum(c, a);
  }

  /** Which update a settlement uses. */
  datatype UpdateMethod = ByRipte | ByLendingRate

  /** The choice and the amount it gives. */
  datatype Choice = Choice(total: real, chosen: UpdateMethod)

  /** The label the settlement text prints for the method. */
  function MethodLabel(m: UpdateMethod): string {
    match m
    case ByRipte => "tasa de variación RIPTE"
    case ByLendingRate => "Tasa Activa BNA"
  }

  /** The update that favours the worker: RIPTE plus interest unless the lending rate gives strictly more. */
  function MostFavourable(totalRipte: real, totalRate: real): (r: Choice)
    ensures r.total >= totalRipte && r.total >= totalRate
    ensures r.total == totalRipte || r.total == totalRate
    ensures r.chosen == ByRipte <==> totalRipte >= totalRate
    ensures r.chosen == ByRipte ==> r.total == totalRipte
    ensures r.chosen == ByLendingRate ==> r.total == totalRate
  {
    if totalRipte >= totalRate then Choice(totalRipte, ByRipte) else Choice(totalRate, ByLendingRate)
  }
}
