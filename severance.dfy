/**
  The dismissal severance of apps/calculadora_despidos.py: the tenure in
  years and months (`calcular_antiguedad`), the vacation tiers
  (`calcular_dias_vacaciones`), and the nine concepts of the settlement
  (Ley 20.744 art. 245 and the related items), each rounded half-up to
  cents before they are added up.
 */
module Severance {
  import opened Dates
  import opened Rounding

  // ---------------------------------------------------------------------
  // Tenure: `calcular_antiguedad`
  // ---------------------------------------------------------------------

  /** Whole months from hire to dismissal: the month difference, one less when the day of the month has not come round yet. */
  function ElapsedMonths(ingreso: Date, despido: Date): int {
    MonthIndex(despido) - MonthIndex(ingreso) - (if despido.day < ingreso.day then 1 else 0)
  }

  /**
    Years and months of tenure: the whole months split into years and
    months, where more than 3 leftover months count as one more full year
    and leave no months.
   */
  function Tenure(ingreso: Date, despido: Date): (t: (int, int))
    ensures 0 <= t.1 <= 3
    ensures ElapsedMonths(ingreso, despido) <= 12 * t.0 + t.1 <= ElapsedMonths(ingreso, despido) + 8
    ensures 12 * t.0 + t.1 == ElapsedMonths(ingreso, despido) <==> ElapsedMonths(ingreso, despido) % 12 <= 3
    ensures ElapsedMonths(ingreso, despido) % 12 > 3 ==>
              t.1 == 0 && 12 * t.0 == ElapsedMonths(ingreso, despido) + 12 - ElapsedMonths(ingreso, despido) % 12
  {
    var raw := ElapsedMonths(ingreso, despido);
    if raw % 12 <= 3 then (raw / 12, raw % 12) else (raw / 12 + 1, 0)
  }

  /** `calcular_antiguedad`: the borrow of a month, then of a year, then the round-up of more than 3 months. */
  method ComputeTenure(ingreso: Date, despido: Date) returns (anios: int, meses: int)
    requires Valid(ingreso) && Valid(despido)
    ensures (anios, meses) == Tenure(ingreso, despido)
  {
    anios := despido.year - ingreso.year;
    meses := despido.month - ingreso.month;
    var dias := despido.day - ingreso.day;
    if dias < 0 {
      meses := meses - 1;
    }
    if meses < 0 {
      anios := anios - 1;
      meses := meses + 12;
    }
    assert 0 <= meses < 12 && 12 * anios + meses == ElapsedMonths(ingreso, despido);
    DivModUnique(ElapsedMonths(ingreso, despido), anios, meses);
    if meses > 3 {
      anios := anios + 1;
      meses := 0;
    }
  }

  lemma DivModUnique(n: int, q: int, r: int)
    requires 0 <= r < 12 && n == 12 * q + r
    ensures q == n / 12 && r == n % 12
  {
  }

  /** The years of tenure are the whole months plus 8, in whole years: 4 leftover months already make a year. */
  lemma TenureYears(ingreso: Date, despido: Date)
    ensures Tenure(ingreso, despido).0 == (ElapsedMonths(ingreso, despido) + 8) / 12
  {
    var raw := ElapsedMonths(ingreso, despido);
    var q, r := raw / 12, raw % 12;
    assert raw + 8 == 12 * q + (r + 8);
    if r <= 3 {
      DivModUnique(raw + 8, q, r + 8);
    } else {
      DivModUnique(raw + 8, q + 1, r - 4);
    }
  }

  /** A later dismissal date never counts fewer whole months. */
  lemma ElapsedMonthsMonotone(ingreso: Date, d1: Date, d2: Date)
    requires Valid(d1) && Valid(d2) && Le(d1, d2)
    ensures ElapsedMonths(ingreso, d1) <= ElapsedMonths(ingreso, d2)
  {
  }

  /** A later dismissal date never gives fewer years of tenure. */
  lemma TenureYearsMonotone(ingreso: Date, d1: Date, d2: Date)
    requires Valid(d1) && Valid(d2) && Le(d1, d2)
    ensures Tenure(ingreso, d1).0 <= Tenure(ingreso, d2).0
  {
    ElapsedMonthsMonotone(ingreso, d1, d2);
    TenureYears(ingreso, d1);
    TenureYears(ingreso, d2);
    DivMonotone(ElapsedMonths(ingreso, d1) + 8, ElapsedMonths(ingreso, d2) + 8);
  }

  lemma DivMonotone(a: int, b: int)
    requires a <= b
    ensures a / 12 <= b / 12
  {
  }

  /** A dismissal on or after the hire date gives no negative tenure. */
  lemma TenureNonNegative(ingreso: Date, despido: Date)
    requires Valid(ingreso) && Valid(despido) && Le(ingreso, despido)
    ensures Tenure(ingreso, despido).0 >= 0
  {
    ElapsedMonthsMonotone(ingreso, ingreso, despido);
    TenureYears(ingreso, despido);
  }

  /** Four years and four months count as five years and no months. */
  lemma TenureExample()
    ensures Tenure(Date(2020, 1, 10), Date(2024, 5, 15)) == (5, 0)
  {
    assert ElapsedMonths(Date(2020, 1, 10), Date(2024, 5, 15)) == 52;
  }

  // ---------------------------------------------------------------------
  // Vacation days: `calcular_dias_vacaciones`
  // ---------------------------------------------------------------------

  /** Vacation days by tenure: 14 under 5 years, 21 under 10, 28 under 20, 35 from then on. */
  function VacationDays(anios: int): (r: int)
    ensures r == 14 || r == 21 || r == 28 || r == 35
    ensures r == 14 <==> anios < 5
    ensures r == 21 <==> 5 <= anios < 10
    ensures r == 35 <==> anios >= 20
  {
    if anios < 5 then 14
    else if anios < 10 then 21
    else if anios < 20 then 28
    else 35
  }

  /** More tenure never gives fewer vacation days. */
  lemma VacationDaysMonotone(a: int, b: int)
    requires a <= b
    ensures VacationDays(a) <= VacationDays(b)
  {
  }

  // ---------------------------------------------------------------------
  // The nine concepts of the settlement
  // ---------------------------------------------------------------------

  /** The concepts of the settlement, in the order they are added up. */
  datatype Concepts = Concepts(
    seniority: real,
    notice: real,
    noticeSac: real,
    workedDays: real,
    integration: real,
    integrationSac: real,
    proportionalSac: real,
    vacation: real,
    vacationSac: real)

  /** The first day of the dismissal's half-year: January 1 through June, July 1 after. */
  function SemesterStart(d: Date): (r: Date)
    requires Valid(d)
    ensures Valid(r) && r.year == d.year && r.day == 1
    ensures r.month == (if d.month <= 6 then 1 else 7)
  {
    if d.month <= 6 then Date(d.year, 1, 1) else Date(d.year, 7, 1)
  }

  /** The days of the half-year that have gone by before the dismissal day; 0 on the half-year's first day. */
  function SacDays(d: Date): (n: int)
    requires Valid(d)
    ensures 0 <= n <= 183
    ensures n == 0 <==> d == SemesterStart(d)
  {
    SacDaysOrdinal(d);
    DaysBetween(SemesterStart(d), d)
  }

  lemma SacDaysOrdinal(d: Date)
    requires Valid(d)
    ensures DaysBetween(SemesterStart(d), d) ==
              DaysBeforeMonth(d.year, d.month) - DaysBeforeMonth(d.year, SemesterStart(d).month) + d.day - 1
    ensures 0 <= DaysBetween(SemesterStart(d), d) <= 183
    ensures DaysBetween(SemesterStart(d), d) == 0 <==> d == SemesterStart(d)
  {
    var s := SemesterStart(d);
    assert Ordinal(s) == DaysBeforeYear(d.year) + DaysBeforeMonth(d.year, s.month) + 1;
  }

  /** The notice substitute: nothing when notice was given, else one salary under 5 years of tenure and two from then on. */
  function NoticePay(salario: real, anios: int, preavisoPagado: bool): (r: real)
    ensures preavisoPagado ==> r == 0.0
    ensures !preavisoPagado && anios < 5 ==> r == salario
    ensures !preavisoPagado && anios >= 5 ==> r == 2.0 * salario
  {
    if preavisoPagado then 0.0
    else if anios < 5 then salario * 1.0
    else salario * 2.0
  }

  /** The pay of `dias` days at a month of `diasMes` days. */
  function DaysPay(salario: real, diasMes: int, dias: int): real
    requires diasMes > 0
  {
    (salario / diasMes as real) * dias as real
  }

  /** The days worked in the dismissal month and the rest of that month: together, exactly a month's salary. */
  lemma DaysPaySplit(salario: real, diasMes: int, dia: int)
    requires diasMes > 0
    ensures DaysPay(salario, diasMes, dia) + DaysPay(salario, diasMes, diasMes - dia) == salario
  {
    var daily := salario / diasMes as real;
    assert daily * dia as real + daily * (diasMes - dia) as real == daily * diasMes as real;
  }

  /** The pay for some days of a month is zero only when there are no days or no salary. */
  lemma DaysPayZero(salario: real, diasMes: int, dias: int)
    requires diasMes > 0
    ensures DaysPay(salario, diasMes, dias) == 0.0 <==> salario == 0.0 || dias == 0
  {
    var daily := salario / diasMes as real;
    assert daily == 0.0 <==> salario == 0.0;
  }

  /** The concepts before rounding, as the block computes them with exact arithmetic. */
  function ExactConcepts(despido: Date, anios: int, salario: real, preavisoPagado: bool): (c: Concepts)
    requires Valid(despido)
    ensures c.seniority == salario * anios as real
    ensures c.notice == NoticePay(salario, anios, preavisoPagado) && c.noticeSac == c.notice / 12.0
    ensures c.workedDays == DaysPay(salario, DaysInMonth(despido), despido.day)
    ensures c.workedDays + c.integration == salario
    ensures c.integrationSac == c.integration / 12.0
    ensures c.proportionalSac == salario / 365.0 * SacDays(despido) as real
    ensures c.vacation == salario / 25.0 * VacationDays(anios) as real && c.vacationSac == c.vacation / 12.0
  {
    var diasMes := DaysInMonth(despido);
    var notice := NoticePay(salario, anios, preavisoPagado);
    var integration := if despido.day == diasMes then 0.0 else DaysPay(salario, diasMes, diasMes - despido.day);
    DaysPaySplit(salario, diasMes, despido.day);
    var vacation := salario / 25.0 * VacationDays(anios) as real;
    Concepts(
      salario * anios as real,
      notice, notice / 12.0,
      DaysPay(salario, diasMes, despido.day),
      integration, integration / 12.0,
      salario / 365.0 * SacDays(despido) as real,
      vacation, vacation / 12.0)
  }

  /** The integration of the dismissal month and its SAC are zero exactly when the dismissal falls on the month's last day. */
  lemma IntegrationZeroIffLastDay(despido: Date, anios: int, salario: real, preavisoPagado: bool)
    requires Valid(despido) && salario != 0.0
    ensures var c := ExactConcepts(despido, anios, salario, preavisoPagado);
            (c.integration == 0.0 <==> despido.day == DaysInMonth(despido))
            && (c.integrationSac == 0.0 <==> despido.day == DaysInMonth(despido))
  {
    var n := DaysInMonth(despido);
    if despido.day != n {
      DaysPayZero(salario, n, n - despido.day);
    }
  }

  /** Each concept quantized to cents, half up. */
  function Quantized(c: Concepts): (q: Concepts)
    ensures IsCents(q.seniority) && IsCents(q.notice) && IsCents(q.noticeSac)
    ensures IsCents(q.workedDays) && IsCents(q.integration) && IsCents(q.integrationSac)
    ensures IsCents(q.proportionalSac) && IsCents(q.vacation) && IsCents(q.vacationSac)
  {
    Concepts(
      Round2(c.seniority), Round2(c.notice), Round2(c.noticeSac),
      Round2(c.workedDays), Round2(c.integration), Round2(c.integrationSac),
      Round2(c.proportionalSac), Round2(c.vacation), Round2(c.vacationSac))
  }

  /** The concepts added up in their order. */
  function Sum(c: Concepts): real {
    c.seniority + c.notice + c.noticeSac + c.workedDays + c.integration + c.integrationSac
      + c.proportionalSac + c.vacation + c.vacationSac
  }

  /** Whole cents added up are whole cents. */
  lemma SumOfCents(q: Concepts)
    requires IsCents(q.seniority) && IsCents(q.notice) && IsCents(q.noticeSac)
    requires IsCents(q.workedDays) && IsCents(q.integration) && IsCents(q.integrationSac)
    requires IsCents(q.proportionalSac) && IsCents(q.vacation) && IsCents(q.vacationSac)
    ensures IsCents(Sum(q))
  {
    var t := q.seniority;
    CentsAdd(t, q.notice);
    t := t + q.notice;
    CentsAdd(t, q.noticeSac);
    t := t + q.noticeSac;
    CentsAdd(t, q.workedDays);
    t := t + q.workedDays;
    CentsAdd(t, q.integration);
    t := t + q.integration;
    CentsAdd(t, q.integrationSac);
    t := t + q.integrationSac;
    CentsAdd(t, q.proportionalSac);
    t := t + q.proportionalSac;
    CentsAdd(t, q.vacation);
    t := t + q.vacation;
    CentsAdd(t, q.vacationSac);
  }

  /** The settlement total: the sum of the quantized concepts. */
  function SeveranceTotal(despido: Date, anios: int, salario: real, preavisoPagado: bool): (t: real)
    requires Valid(despido)
    ensures IsCents(t)
  {
    var q := Quantized(ExactConcepts(despido, anios, salario, preavisoPagado));
    SumOfCents(q);
    Sum(q)
  }

  /** Rounding each concept first moves the total by at most 4.5 cents from the exact sum. */
  lemma TotalNearExact(despido: Date, anios: int, salario: real, preavisoPagado: bool)
    requires Valid(despido)
    ensures var exact := Sum(ExactConcepts(despido, anios, salario, preavisoPagado));
            -0.045 <= SeveranceTotal(despido, anios, salario, preavisoPagado) - exact <= 0.045
  {
    QuantizedNear(ExactConcepts(despido, anios, salario, preavisoPagado));
  }

  lemma QuantizedNear(c: Concepts)
    ensures -0.045 <= Sum(Quantized(c)) - Sum(c) <= 0.045
  {
    Round2Near(c.seniority);
    Round2Near(c.notice);
    Round2Near(c.noticeSac);
    Round2Near(c.workedDays);
    Round2Near(c.integration);
    Round2Near(c.integrationSac);
    Round2Near(c.proportionalSac);
    Round2Near(c.vacation);
    Round2Near(c.vacationSac);
  }

  /**
    Quantizing each concept before adding is not the same as rounding the
    exact sum: a salary of 100000 and a dismissal on 31 January 2023 after
    less than a year, with notice given, totals 168885.85, while the exact
    concepts add up to 168885.8447... and would round to 168885.84.
   */
  lemma TotalDiffersFromRoundedSum()
    ensures var d := Date(2023, 1, 31);
            SeveranceTotal(d, 0, 100000.0, true) == 168885.85
            && Round2(Sum(ExactConcepts(d, 0, 100000.0, true))) == 168885.84
  {
    var d := Date(2023, 1, 31);
    var c := ExactConcepts(d, 0, 100000.0, true);
    assert DaysInMonth(d) == 31;
    SacDaysOrdinal(d);
    assert SacDays(d) == 30;
    assert c.workedDays == 100000.0 && c.integration == 0.0;
    assert c.proportionalSac == 100000.0 / 365.0 * 30.0;
    assert c.vacation == 56000.0 && c.vacationSac == 56000.0 / 12.0;
    CentsInt(0);
    CentsInt(100000);
    CentsInt(56000);
    Round2Idempotent(0.0);
    Round2Idempotent(100000.0);
    Round2Idempotent(56000.0);
    CentsFromInt(821918);
    Round2Unique(c.proportionalSac, 8219.18);
    CentsFromInt(466667);
    Round2Unique(c.vacationSac, 4666.67);
    CentsFromInt(16888584);
    Round2Unique(Sum(c), 168885.84);
  }
}
