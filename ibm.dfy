/**
  The monthly base income (IBM, Ley 24.557 art. 12 inc. 1) of apps/ibm.py:
  the twelve months before the first medical manifestation (PMI), each
  salary updated by the variation of the wage index (RIPTE) from its month
  to the PMI month, and the average of the updated salaries of the months
  the user includes, rounded half-up to cents.
 */
module Ibm {
  import opened Options
  import opened Dates
  import opened Rounding
  import opened Text
  import opened RealArith

  // ---------------------------------------------------------------------
  // The wage index: `obtener_ripte`, `calcular_variacion_ripte`
  // ---------------------------------------------------------------------

  /** A row of the RIPTE table: the year, the month as written (`Ene`, `Febrero`, ...), the index. */
  datatype RipteRow = RipteRow(anio: int, mes: string, indice: real)

  /** What a month name is compared by: its first three letters, in lower case. */
  function MonthKey(mes: string): string {
    Take(Lower(mes), 3)
  }

  /** The row is for year `anio` and for a month whose key is that of `mes`. */
  predicate MatchesMonth(row: RipteRow, anio: int, mes: string) {
    row.anio == anio && MonthKey(row.mes) == MonthKey(mes)
  }

  /** The year and month key of every row, in order. */
  function Keys(rows: seq<RipteRow>): (ks: seq<(int, string)>)
    ensures |ks| == |rows|
    ensures forall j :: 0 <= j < |rows| ==> ks[j] == (rows[j].anio, MonthKey(rows[j].mes))
  {
    seq(|rows|, j requires 0 <= j < |rows| => (rows[j].anio, MonthKey(rows[j].mes)))
  }

  /** The position of the first key from `i` equal to `key`, or `None`. */
  function FirstMatch(keys: seq<(int, string)>, key: (int, string), i: nat): (k: Option<nat>)
    requires i <= |keys|
    ensures k.Some? ==> i <= k.value < |keys| && keys[k.value] == key
    ensures k.Some? ==> forall j :: i <= j < k.value ==> keys[j] != key
    ensures k.None? <==> forall j :: i <= j < |keys| ==> keys[j] != key
    decreases |keys| - i
  {
    if i == |keys| then None
    else if keys[i] == key then Some(i)
    else FirstMatch(keys, key, i + 1)
  }

  /** `obtener_ripte`: the index of the first matching row, or `None` when no row matches. */
  function IndexFor(rows: seq<RipteRow>, anio: int, mes: string): (v: Option<real>)
    ensures v.None? <==> forall j :: 0 <= j < |rows| ==> !MatchesMonth(rows[j], anio, mes)
  {
    var k := FirstMatch(Keys(rows), (anio, MonthKey(mes)), 0);
    if k.Some? then Some(rows[k.value].indice) else None
  }

  /** The index found is that of the first matching row. */
  lemma IndexForFirstRow(rows: seq<RipteRow>, anio: int, mes: string, j: nat)
    requires j < |rows| && MatchesMonth(rows[j], anio, mes)
    requires forall i :: 0 <= i < j ==> !MatchesMonth(rows[i], anio, mes)
    ensures IndexFor(rows, anio, mes) == Some(rows[j].indice)
  {
    var k := FirstMatch(Keys(rows), (anio, MonthKey(mes)), 0);
    assert Keys(rows)[j] == (anio, MonthKey(mes));
  }

  /** Case and everything after the third letter do not matter: "ENERO" finds the row of "ene". */
  lemma IndexForIgnoresSuffix(rows: seq<RipteRow>, anio: int, mes1: string, mes2: string)
    requires MonthKey(mes1) == MonthKey(mes2)
    ensures IndexFor(rows, anio, mes1) == IndexFor(rows, anio, mes2)
  {
  }

  /**
    `calcular_variacion_ripte`: the relative change of the index from one
    month to another; `None` when either index is missing or the first is 0.
   */
  function Variation(rows: seq<RipteRow>, anioDesde: int, mesDesde: string, anioHasta: int, mesHasta: string): (r: Option<real>)
    ensures r.Some? <==> IndexFor(rows, anioDesde, mesDesde).Some? && IndexFor(rows, anioHasta, mesHasta).Some?
                         && IndexFor(rows, anioDesde, mesDesde).value != 0.0
    ensures r.Some? ==> IndexFor(rows, anioDesde, mesDesde).value * (1.0 + r.value) == IndexFor(rows, anioHasta, mesHasta).value
  {
    var desde, hasta := IndexFor(rows, anioDesde, mesDesde), IndexFor(rows, anioHasta, mesHasta);
    if desde.None? || hasta.None? || desde.value == 0.0 then None
    else
      RelativeChange(desde.value, hasta.value);
      Some((hasta.value - desde.value) / desde.value)
  }

  lemma RelativeChange(d: real, h: real)
    requires d != 0.0
    ensures d * (1.0 + (h - d) / d) == h
  {
    var v := (h - d) / d;
    assert d * v == h - d;
    assert d * (1.0 + v) == d + d * v;
  }

  /** The same month at both ends, with a non-zero index, is no change at all. */
  lemma VariationSameMonth(rows: seq<RipteRow>, anio: int, mes: string)
    requires IndexFor(rows, anio, mes).Some? && IndexFor(rows, anio, mes).value != 0.0
    ensures Variation(rows, anio, mes, anio, mes) == Some(0.0)
  {
    var d := IndexFor(rows, anio, mes).value;
    assert (d - d) / d == 0.0;
  }

  /** The updated salary of a month (`salario_act`): grown by the variation when there is one and the salary is positive. */
  function UpdatedSalary(salario: real, variacion: Option<real>): (r: real)
    ensures variacion.None? || salario <= 0.0 ==> r == salario
  {
    if variacion.Some? && salario > 0.0 then salario * (1.0 + variacion.value) else salario
  }

  /** The updated salary keeps the ratio of the indexes: salary over start index equals updated salary over end index. */
  lemma UpdatedSalaryFollowsIndex(rows: seq<RipteRow>, salario: real, anioDesde: int, mesDesde: string, anioHasta: int, mesHasta: string)
    requires salario > 0.0
    requires Variation(rows, anioDesde, mesDesde, anioHasta, mesHasta).Some?
    ensures var d, h := IndexFor(rows, anioDesde, mesDesde).value, IndexFor(rows, anioHasta, mesHasta).value;
            UpdatedSalary(salario, Variation(rows, anioDesde, mesDesde, anioHasta, mesHasta)) * d == salario * h
  {
    var v := Variation(rows, anioDesde, mesDesde, anioHasta, mesHasta).value;
    var d, h := IndexFor(rows, anioDesde, mesDesde).value, IndexFor(rows, anioHasta, mesHasta).value;
    assert d * (1.0 + v) == h;
    assert salario * (1.0 + v) * d == salario * (d * (1.0 + v));
  }

  // ---------------------------------------------------------------------
  // The months before the PMI: `obtener_meses_anteriores`
  // ---------------------------------------------------------------------

  function Reverse<T>(s: seq<T>): (r: seq<T>)
    ensures |r| == |s|
    ensures forall i :: 0 <= i < |s| ==> r[i] == s[|s| - 1 - i]
  {
    seq(|s|, i requires 0 <= i < |s| => s[|s| - 1 - i])
  }

  /**
    `obtener_meses_anteriores(fecha_pmi, cantidad)`: one month back at a
    time, each step from the previous result (so a day clamped to a short
    month stays clamped), then the list reversed into ascending order.
    The requirement keeps every step after year 1.
   */
  method MonthsBefore(pmi: Date, cantidad: int) returns (meses: seq<Date>)
    requires Valid(pmi) && MonthIndex(pmi) - cantidad >= 12
    ensures |meses| == if cantidad > 0 then cantidad else 0
    ensures forall i :: 0 <= i < |meses| ==> Valid(meses[i]) && MonthIndex(meses[i]) == MonthIndex(pmi) - (|meses| - i)
    ensures |meses| > 0 ==> meses[|meses| - 1] == MonthBefore(pmi)
    ensures forall i :: 1 <= i < |meses| ==> MonthIndex(meses[i]) > 12 && meses[i - 1] == MonthBefore(meses[i])
  {
    var back: seq<Date> := [];
    var fecha := pmi;
    var i := 0;
    while i < cantidad
      invariant 0 <= i && (cantidad > 0 ==> i <= cantidad) && (cantidad <= 0 ==> i == 0)
      invariant |back| == i
      invariant Valid(fecha) && MonthIndex(fecha) == MonthIndex(pmi) - i
      invariant i == 0 ==> fecha == pmi
      invariant i > 0 ==> fecha == back[i - 1] && back[0] == MonthBefore(pmi)
      invariant forall k :: 0 <= k < i ==> Valid(back[k]) && MonthIndex(back[k]) == MonthIndex(pmi) - (k + 1)
      invariant forall k :: 0 <= k < i - 1 ==> MonthIndex(back[k]) > 12 && back[k + 1] == MonthBefore(back[k])
    {
      fecha := MonthBefore(fecha);
      back := back + [fecha];
      i := i + 1;
    }
    meses := Reverse(back);
  }

  // ---------------------------------------------------------------------
  // Month labels and lengths: `obtener_nombre_mes`, `obtener_dias_mes`
  // ---------------------------------------------------------------------

  const Abbreviations: seq<string> := ["ene", "feb", "mar", "abr", "may", "jun", "jul", "ago", "sep", "oct", "nov", "dic"]

  /** Python's `s[2:]`: empty when `s` is shorter. */
  function DropTwo(s: string): (r: string)
    ensures |s| >= 2 ==> r == s[2..]
    ensures |s| < 2 ==> r == ""
  {
    if |s| >= 2 then s[2..] else ""
  }

  /** `obtener_nombre_mes`: the three-letter Spanish abbreviation, ".-", and the year without its first two digits. */
  function MonthLabel(fecha: Date): (r: string)
    requires Valid(fecha)
    ensures |r| >= 5 && r[..3] == Abbreviations[fecha.month - 1] && r[3..5] == ".-"
    ensures 1000 <= fecha.year <= 9999 ==> |r| == 7 && AllDigits(r[5..]) && DigitsValue(r[5..]) == fecha.year % 100
  {
    YearSuffix(fecha.year);
    Abbreviations[fecha.month - 1] + ".-" + DropTwo(NatToString(fecha.year))
  }

  /** A four-digit year loses its century: the two digits left are the year modulo 100. */
  lemma YearSuffix(year: nat)
    ensures 1000 <= year <= 9999 ==>
              |DropTwo(NatToString(year))| == 2 && AllDigits(DropTwo(NatToString(year))) &&
              DigitsValue(DropTwo(NatToString(year))) == year % 100
  {
    if 1000 <= year <= 9999 {
      var century := NatToString(year / 100);
      var tail := TwoDigitTail(year);
      NatToStringLength(year / 100);
      CenturySplit(year);
      assert DropTwo(century + tail) == tail;
    }
  }

  /** The last two decimal digits of a number, as `str` writes them. */
  function TwoDigitTail(n: nat): (t: string)
    ensures |t| == 2 && AllDigits(t) && DigitsValue(t) == n % 100
  {
    var t := [DigitChar(n / 10 % 10), DigitChar(n % 10)];
    assert t[..1] == [DigitChar(n / 10 % 10)] && t[..1][..0] == [];
    assert DigitsValue(t[..1]) == n / 10 % 10;
    assert DigitsValue(t) == DigitsValue(t[..1]) * 10 + n % 10;
    LastTwoDigits(n);
    t
  }

  lemma LastTwoDigits(n: nat)
    ensures n % 100 == (n / 10 % 10) * 10 + n % 10
  {
  }

  /** `str(n)` for `n >= 100` is `str(n // 100)` followed by the last two digits. */
  lemma CenturySplit(n: nat)
    requires n >= 100
    ensures NatToString(n) == NatToString(n / 100) + TwoDigitTail(n)
  {
    assert NatToString(n) == NatToString(n / 10) + [DigitChar(n % 10)];
    assert n / 10 / 10 == n / 100;
    assert NatToString(n / 10) == NatToString(n / 100) + [DigitChar(n / 10 % 10)];
  }

  /** `s.split('.-')[0]`: the text before the first ".-", or all of `s`. */
  function BeforeSeparator(s: string): (r: string)
    ensures |r| <= |s| && r == s[..|r|]
    ensures r == s || (|r| + 2 <= |s| && s[|r|] == '.' && s[|r| + 1] == '-')
    ensures forall i :: 0 <= i < |r| && i + 1 < |s| ==> !(s[i] == '.' && s[i + 1] == '-')
  {
    if |s| < 2 then s
    else if s[0] == '.' && s[1] == '-' then ""
    else [s[0]] + BeforeSeparator(s[1..])
  }

  /** The calculator reads the month back out of a label: splitting at ".-" gives the abbreviation. */
  lemma MonthOfLabel(fecha: Date)
    requires Valid(fecha)
    ensures BeforeSeparator(MonthLabel(fecha)) == Abbreviations[fecha.month - 1]
  {
    var a := Abbreviations[fecha.month - 1];
    assert |a| == 3 && a[0] != '.' && a[1] != '.' && a[2] != '.';
    SplitAfterThree(a, DropTwo(NatToString(fecha.year)));
  }

  /** Three letters none of which is a dot, then ".-": the split keeps the three letters. */
  lemma SplitAfterThree(a: string, tail: string)
    requires |a| == 3 && a[0] != '.' && a[1] != '.' && a[2] != '.'
    ensures BeforeSeparator(a + ".-" + tail) == a
  {
    var s := a + ".-" + tail;
    assert s[3..] == ".-" + tail;
    assert BeforeSeparator(s[3..]) == "";
    assert s[2..][1..] == s[3..];
    assert BeforeSeparator(s[2..]) == [s[2]];
    assert s[1..][1..] == s[2..];
    assert BeforeSeparator(s[1..]) == [s[1], s[2]];
  }

  /** A label's month finds the index row of that month, whatever the case and length of the month name in the table. */
  lemma LabelFindsMonth(rows: seq<RipteRow>, fecha: Date, full: string)
    requires Valid(fecha) && MonthKey(full) == Abbreviations[fecha.month - 1]
    ensures IndexFor(rows, fecha.year, BeforeSeparator(MonthLabel(fecha))) == IndexFor(rows, fecha.year, full)
  {
    var a := Abbreviations[fecha.month - 1];
    calc {
      IndexFor(rows, fecha.year, BeforeSeparator(MonthLabel(fecha)));
      { MonthOfLabel(fecha); }
      IndexFor(rows, fecha.year, a);
      { AbbreviationKey(fecha.month - 1); IndexForIgnoresSuffix(rows, fecha.year, a, full); }
      IndexFor(rows, fecha.year, full);
    }
  }

  /** An abbreviation is its own key: three lower-case letters. */
  lemma AbbreviationKey(k: nat)
    requires k < 12
    ensures MonthKey(Abbreviations[k]) == Abbreviations[k]
  {
    var a := Abbreviations[k];
    assert |a| == 3 && forall i :: 0 <= i < 3 ==> 'a' <= a[i] <= 'z';
    assert Lower(a) == a;
  }

  /** `obtener_dias_mes`: the day of the eve of the next month's first day. */
  function DaysOfMonth(anio: int, mes: int): (n: int)
    requires 1 <= anio && 1 <= mes <= 12
    ensures n == MonthLength(anio, mes)
  {
    var sigMes := if mes == 12 then Date(anio + 1, 1, 1) else Date(anio, mes + 1, 1);
    DayBefore(sigMes).day
  }

  // ---------------------------------------------------------------------
  // Totals and the IBM
  // ---------------------------------------------------------------------

  /** A row of the table: the salary entered, the variation, the updated salary, the days of the month, and the check box. */
  datatype SalaryRow = SalaryRow(periodo: string, salario: real, variacion: Option<real>, salarioAct: real, dias: int, incluir: bool)

  /**
    A row as the table loop fills it in for month `mes`: labelled with the
    month, the variation of the index from that month to the PMI's month,
    the salary entered updated by it, and the days of the month.
   */
  predicate Built(d: SalaryRow, rows: seq<RipteRow>, mes: Date, pmi: Date)
    requires Valid(mes) && Valid(pmi)
  {
    && d.periodo == MonthLabel(mes)
    && d.variacion == Variation(rows, mes.year, Abbreviations[mes.month - 1], pmi.year, Abbreviations[pmi.month - 1])
    && d.salarioAct == UpdatedSalary(d.salario, d.variacion)
    && d.dias == MonthLength(mes.year, mes.month)
  }

  /**
    The body of the table loop for one month: the month's label, the
    variation asked for with each month read back out of its label, the
    updated salary and the days of the month.
   */
  method BuildRow(rows: seq<RipteRow>, mes: Date, pmi: Date, salario: real, incluir: bool) returns (d: SalaryRow)
    requires Valid(mes) && Valid(pmi)
    ensures Built(d, rows, mes, pmi) && d.salario == salario && d.incluir == incluir
  {
    var nombre := MonthLabel(mes);
    var mesNombre := BeforeSeparator(nombre);
    var mesPmi := BeforeSeparator(MonthLabel(pmi));
    MonthOfLabel(mes);
    MonthOfLabel(pmi);
    var variacion := Variation(rows, mes.year, mesNombre, pmi.year, mesPmi);
    var salarioAct := UpdatedSalary(salario, variacion);
    var dias := DaysOfMonth(mes.year, mes.month);
    d := SalaryRow(nombre, salario, variacion, salarioAct, dias, incluir);
  }

  /** Every row of `ds` is the row built for the month at the same position. */
  predicate BuiltFrom(ds: seq<SalaryRow>, rows: seq<RipteRow>, meses: seq<Date>, pmi: Date) {
    Valid(pmi) && |ds| == |meses| &&
    forall i :: 0 <= i < |ds| ==> Valid(meses[i]) && Built(ds[i], rows, meses[i], pmi)
  }

  /** A table built for some months, with one more row built for the next month, is built for all of them. */
  lemma BuiltFromSnoc(ds: seq<SalaryRow>, d: SalaryRow, rows: seq<RipteRow>, meses: seq<Date>, mes: Date, pmi: Date)
    requires BuiltFrom(ds, rows, meses, pmi) && Valid(mes) && Built(d, rows, mes, pmi)
    ensures BuiltFrom(ds + [d], rows, meses + [mes], pmi)
  {
    var ds', meses' := ds + [d], meses + [mes];
    forall j | 0 <= j < |ds'|
      ensures Valid(meses'[j]) && Built(ds'[j], rows, meses'[j], pmi)
    {
      if j < |ds| {
        assert ds'[j] == ds[j] && meses'[j] == meses[j];
      }
    }
  }

  /** The loop over the months: one row per month, in order, from the salaries and check boxes entered. */
  method BuildTable(rows: seq<RipteRow>, meses: seq<Date>, pmi: Date, salarios: seq<real>, incluidos: seq<bool>)
      returns (ds: seq<SalaryRow>)
    requires Valid(pmi) && |salarios| == |meses| && |incluidos| == |meses|
    requires forall i :: 0 <= i < |meses| ==> Valid(meses[i])
    ensures BuiltFrom(ds, rows, meses, pmi)
    ensures Entered(ds, salarios, incluidos)
  {
    ds := [];
    for i := 0 to |meses|
      invariant |ds| == i
      invariant BuiltFrom(ds, rows, meses[..i], pmi)
      invariant Entered(ds, salarios[..i], incluidos[..i])
    {
      assert meses[..i + 1] == meses[..i] + [meses[i]];
      assert salarios[..i + 1] == salarios[..i] + [salarios[i]];
      assert incluidos[..i + 1] == incluidos[..i] + [incluidos[i]];
      var d := BuildRow(rows, meses[i], pmi, salarios[i], incluidos[i]);
      BuiltFromSnoc(ds, d, rows, meses[..i], meses[i], pmi);
      EnteredSnoc(ds, d, salarios[..i], incluidos[..i]);
      ds := ds + [d];
    }
    assert meses[..|meses|] == meses && salarios[..|meses|] == salarios && incluidos[..|meses|] == incluidos;
  }

  /** Each row holds the salary and check box entered at its position. */
  predicate Entered(ds: seq<SalaryRow>, salarios: seq<real>, incluidos: seq<bool>) {
    |ds| == |salarios| == |incluidos| &&
    forall j :: 0 <= j < |ds| ==> ds[j].salario == salarios[j] && ds[j].incluir == incluidos[j]
  }

  lemma EnteredSnoc(ds: seq<SalaryRow>, d: SalaryRow, salarios: seq<real>, incluidos: seq<bool>)
    requires Entered(ds, salarios, incluidos)
    ensures Entered(ds + [d], salarios + [d.salario], incluidos + [d.incluir])
  {
  }

  /** Counted rows whose updated salary is at least the salary entered give an updated total at least the original one. */
  lemma {:induction false} TotalsGrow(ds: seq<SalaryRow>)
    requires forall i :: 0 <= i < |ds| ==> Counted(ds[i]) ==> ds[i].salarioAct >= ds[i].salario
    ensures TotalUpdated(ds) >= TotalOriginal(ds)
  {
    if |ds| > 0 {
      TotalsGrow(ds[..|ds| - 1]);
    }
  }

  /** In a built table, an index that never falls between a month and the PMI gives an updated total at least the original one. */
  lemma BuiltTotalsGrow(ds: seq<SalaryRow>, rows: seq<RipteRow>, meses: seq<Date>, pmi: Date)
    requires BuiltFrom(ds, rows, meses, pmi)
    requires forall i :: 0 <= i < |ds| ==> ds[i].variacion.Some? ==> ds[i].variacion.value >= 0.0
    ensures TotalUpdated(ds) >= TotalOriginal(ds)
  {
    forall i | 0 <= i < |ds|
      ensures Counted(ds[i]) ==> ds[i].salarioAct >= ds[i].salario
    {
      UpdatedSalaryGrows(ds[i].salario, ds[i].variacion);
    }
    TotalsGrow(ds);
  }

  /** A positive salary grown by a non-negative variation is not smaller. */
  lemma UpdatedSalaryGrows(salario: real, variacion: Option<real>)
    requires variacion.Some? ==> variacion.value >= 0.0
    ensures salario > 0.0 ==> UpdatedSalary(salario, variacion) >= salario
  {
    if salario > 0.0 && variacion.Some? {
      assert salario * variacion.value >= 0.0;
      assert salario * (1.0 + variacion.value) == salario + salario * variacion.value;
    }
  }

  /** A row takes part in the totals when it is checked and has a positive salary. */
  predicate Counted(d: SalaryRow) {
    d.incluir && d.salario > 0.0
  }

  function MonthsWithData(ds: seq<SalaryRow>): (n: nat)
    ensures n <= |ds|
  {
    if |ds| == 0 then 0 else MonthsWithData(ds[..|ds| - 1]) + (if Counted(ds[|ds| - 1]) then 1 else 0)
  }

  function TotalOriginal(ds: seq<SalaryRow>): real {
    if |ds| == 0 then 0.0 else TotalOriginal(ds[..|ds| - 1]) + (if Counted(ds[|ds| - 1]) then ds[|ds| - 1].salario else 0.0)
  }

  function TotalUpdated(ds: seq<SalaryRow>): real {
    if |ds| == 0 then 0.0 else TotalUpdated(ds[..|ds| - 1]) + (if Counted(ds[|ds| - 1]) then ds[|ds| - 1].salarioAct else 0.0)
  }

  function TotalDays(ds: seq<SalaryRow>): int {
    if |ds| == 0 then 0 else TotalDays(ds[..|ds| - 1]) + (if Counted(ds[|ds| - 1]) then ds[|ds| - 1].dias else 0)
  }

  /** The IBM: the updated total over the months with data, rounded half-up to cents; 0 without data. */
  function MonthlyBaseIncome(ds: seq<SalaryRow>): (ibm: real)
    ensures IsCents(ibm)
    ensures MonthsWithData(ds) == 0 ==> ibm == 0.0
  {
    if MonthsWithData(ds) > 0 then Round2(TotalUpdated(ds) / MonthsWithData(ds) as real)
    else
      Round2Idempotent(0.0);
      0.0
  }

  /** Rows that do not count change neither the count nor the updated total. */
  lemma {:induction false} UncountedRowsIgnored(ds: seq<SalaryRow>)
    requires forall i :: 0 <= i < |ds| ==> !Counted(ds[i])
    ensures MonthsWithData(ds) == 0 && TotalUpdated(ds) == 0.0
  {
    if |ds| > 0 {
      UncountedRowsIgnored(ds[..|ds| - 1]);
    }
  }

  /** When every counted updated salary lies in `[lo, hi]`, so does their total over the count. */
  lemma {:induction false} TotalBounds(ds: seq<SalaryRow>, lo: real, hi: real)
    requires forall i :: 0 <= i < |ds| ==> Counted(ds[i]) ==> lo <= ds[i].salarioAct <= hi
    ensures Spread(TotalUpdated(ds), MonthsWithData(ds), lo, hi)
  {
    if |ds| > 0 {
      var init := ds[..|ds| - 1];
      TotalBounds(init, lo, hi);
      var last := ds[|ds| - 1];
      if Counted(last) {
        SpreadStep(TotalUpdated(init), MonthsWithData(init), lo, hi, last.salarioAct);
      }
    }
  }

  /** The IBM lies between the smallest and the largest counted updated salary, up to half a cent. */
  lemma AverageBounds(ds: seq<SalaryRow>, lo: real, hi: real)
    requires forall i :: 0 <= i < |ds| ==> Counted(ds[i]) ==> lo <= ds[i].salarioAct <= hi
    requires MonthsWithData(ds) > 0
    ensures lo - 0.005 <= MonthlyBaseIncome(ds) <= hi + 0.005
  {
    var n := MonthsWithData(ds) as real;
    var t := TotalUpdated(ds);
    TotalBounds(ds, lo, hi);
    DivBounds(t, MonthsWithData(ds), lo, hi);
    RoundedBetween(t / n, lo, hi);
  }

  lemma RoundedBetween(q: real, lo: real, hi: real)
    requires lo <= q <= hi
    ensures lo - 0.005 <= Round2(q) <= hi + 0.005
  {
    Round2Near(q);
  }

  /** A total of `n` values each in `[lo, hi]` lies in `[n * lo, n * hi]`. */
  predicate Spread(t: real, n: nat, lo: real, hi: real) {
    n as real * lo <= t <= n as real * hi
  }

  /** One more value in `[lo, hi]` keeps a total within its spread. */
  lemma SpreadStep(t: real, n: nat, lo: real, hi: real, x: real)
    requires Spread(t, n, lo, hi) && lo <= x <= hi
    ensures Spread(t + x, n + 1, lo, hi)
  {
    var k := n as real;
    assert (n + 1) as real == k + 1.0;
    assert (k + 1.0) * lo == k * lo + lo && (k + 1.0) * hi == k * hi + hi;
  }

  lemma DivBounds(t: real, m: nat, lo: real, hi: real)
    requires m > 0 && Spread(t, m, lo, hi)
    ensures lo <= t / m as real <= hi
  {
    var n := m as real;
    var q := t / n;
    assert q * n == t;
    assert (q - lo) * n == t - n * lo;
    assert (hi - q) * n == n * hi - t;
    FactorSign(q - lo, n);
    FactorSign(hi - q, n);
  }

  /**
    The totals loop of `generar_texto_plano`: it adds up the same rows, with
    the same filter, as the totals of the page.
   */
  method PlainTextTotals(ds: seq<SalaryRow>) returns (totalOrig: real, totalAct: real, totalDias: int, mesesDatos: int)
    ensures totalOrig == TotalOriginal(ds) && totalAct == TotalUpdated(ds)
    ensures totalDias == TotalDays(ds) && mesesDatos == MonthsWithData(ds)
  {
    totalOrig, totalAct, totalDias, mesesDatos := 0.0, 0.0, 0, 0;
    for i := 0 to |ds|
      invariant totalOrig == TotalOriginal(ds[..i]) && totalAct == TotalUpdated(ds[..i])
      invariant totalDias == TotalDays(ds[..i]) && mesesDatos == MonthsWithData(ds[..i])
    {
      assert ds[..i + 1][..i] == ds[..i];
      var d := ds[i];
      if d.incluir && d.salario > 0.0 {
        totalOrig := totalOrig + d.salario;
        totalAct := totalAct + d.salarioAct;
        totalDias := totalDias + d.dias;
        mesesDatos := mesesDatos + 1;
      }
    }
    assert ds[..|ds|] == ds;
  }
}
