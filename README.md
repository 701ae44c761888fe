# Labour-law calculators: a Dafny model

This project models the calculation core of three Argentine labour-law calculators:

- **Work-accident indemnity** (`apps/calculadora_lrt.py`, Ley de Riesgos del Trabajo).
  - The capital formula is IBM × 53 × 65/age × incapacity %.
  - The capital is raised to the proportional minimum floor in force on the date of the accident (PMI) when it falls short.
  - There is an optional 20 % add-on.
  - The capital is updated two ways: by the RIPTE wage index plus 3 % simple interest a year, and by the accrued BNA lending rate.
  - The result that favours the worker is chosen.
  - Also modelled: the helpers for date parsing, month names, month lengths, half-up rounding to cents and the amount in words.
- **Dismissal severance** (`apps/calculadora_despidos.py`).
  - Tenure in years and months, and vacation days by tenure.
  - The nine severance concepts: seniority, notice and its SAC, days worked, month integration and its SAC, proportional SAC, vacation and its SAC. Each is quantized to cents, and they add up to the total.
  - Updating an amount by RIPTE plus 3 % and by the lending rate.
- **Monthly base income, IBM** (`apps/ibm.py`).
  - The RIPTE lookup by year and month name, and the variation between two months.
  - The twelve months before the PMI and their labels.
  - The updated salaries, the totals over the included months, and the IBM: the average rounded half-up to cents.
  - Currency formatting in Argentine style.

Modelling choices:

- Money and rates are exact `real`s. `Decimal.quantize(Decimal('0.01'), ROUND_HALF_UP)` is `Rounding.Round2`.
- `datetime.date` is `Dates.Date` with Python's proleptic Gregorian ordinal, so `(b - a).days` is `Dates.DaysBetween`.
- Each table is a sequence of rows in the order the program holds them. `apps/calculadora_despidos.py` and `apps/ibm.py` keep file order. `apps/calculadora_lrt.py` sorts each table by date after loading it: RIPTE and the rate table by `fecha`, the floor table by `desde`. So its "last row" is the latest-dated row, and its "first" and "table order" mean date order.
- Clocks, files and the `strptime`/`pd.to_datetime` parsers are parameters.
- The amount in words keeps the source's own spellings, such as "VEINTEIDOS", "UN MIL" and "DOS MILLÓNES".

Each loop that the source runs over a table is a `method` with a loop. Its `ensures` ties the result to a specification function over the whole sequence. Lemmas about those functions state what the calculators promise:

- bounds and monotonicity;
- round trips;
- which row a lookup picks;
- that the floor never lowers the capital;
- that the favourable update is the larger one.

## Model

| member | source | states |
|---|---|---|
| Rounding.Round2 | apps/calculadora_lrt.py:198-202 | ROUND_HALF_UP to cents: the result is a whole number of cents within half a cent of the input, and a tie goes away from zero |
| Rounding.Round2Unique | apps/calculadora_lrt.py:198-202 | the two rounding windows pin the result down: any whole-cent value inside them is the rounded value |
| Rounding.Round2Idempotent | apps/calculadora_lrt.py:198-202 | an amount already in whole cents is left unchanged |
| Rounding.Round2Twice | apps/calculadora_lrt.py:198-202 | rounding twice is rounding once |
| Rounding.Round2Negate | apps/calculadora_lrt.py:198-202 | half-up rounding is symmetric: rounding −x gives −(rounding x) |
| Rounding.Round2Monotone | apps/calculadora_lrt.py:198-202 | rounding preserves order |
| Rounding.Round2OfCentsSum | apps/calculadora_lrt.py:655-657 | re-rounding a sum of rounded portions changes nothing |
| Rounding.RoundingOrderMatters | apps/calculadora_lrt.py:655-657 | rounding each portion before adding differs from rounding the sum (0.005 + 0.005) |
| Dates.DaysInMonth | apps/calculadora_lrt.py:249-255 | the length of the date's month: 28 to 31, December 31, February 29 exactly in leap years |
| Dates.MonthSpan | apps/calculadora_despidos.py:89-95 | the days from the first of the month to the first of the next equal the month's length |
| Dates.LeIffOrdinalLe | apps/calculadora_lrt.py:642-645 | comparing dates field by field agrees with comparing their ordinals, and equal ordinals mean equal dates |
| Dates.LtIffOrdinalLt | apps/calculadora_lrt.py:642-645 | strict date order agrees with strict ordinal order |
| Dates.YearLength | apps/calculadora_lrt.py:646 | a year has 366 days when leap and 365 otherwise |
| Dates.YearBoundary | apps/calculadora_lrt.py:646 | December 31 and the next January 1 are one day apart |
| Dates.SharedDays | apps/calculadora_lrt.py:642-647 | the days two periods share, both ends included, is never negative |
| Dates.SharedDaysInside | apps/calculadora_lrt.py:642-647 | a period inside the interval shares all its days with it, both ends included |
| Dates.SharedDaysDisjoint | apps/calculadora_lrt.py:642-647 | a period ending before the interval starts, or starting after it ends, shares no day |
| Dates.MonthBefore | apps/ibm.py:77 | `relativedelta(months=1)` back: the previous month, same day clamped to that month's length |
| Dates.DayBefore | apps/ibm.py:95 | the valid date whose ordinal is one less |
| Text.NatToString | apps/ibm.py:85 | the decimal digits of a number, with no leading zero, read back as the number |
| Text.SplitJoin | apps/calculadora_lrt.py:230 | joining the pieces of a split with the separator gives back the text |
| Text.SplitLength | apps/calculadora_lrt.py:230 | a split has one piece more than there are separators |
| Text.ParseInt | apps/calculadora_lrt.py:233 | `int()` accepts exactly white space, an optional sign and at least one digit; the magnitude is the digits' value, negative only after a "-" |
| Text.ParseFloatTrunc | apps/calculadora_lrt.py:437 | `int(float())` accepts exactly a signed decimal with at least one digit; the magnitude is its whole part, negative only after a "-" |
| Text.ParseIntOfString | apps/calculadora_lrt.py:233 | `int()` reads back the decimal text of any integer, negative ones included |
| Text.ParseFloatTruncDecimal | apps/calculadora_lrt.py:436-439 | `int(float(v))` of "digits.digits" is the whole part |
| Text.LetterNotNumber | apps/calculadora_lrt.py:438-441 | a value starting with a letter is not read as a number |
| Text.StripLeftRemovesSpace | apps/calculadora_lrt.py:210 | stripping on the left removes exactly a prefix of white space |
| Text.StripRightRemovesSpace | apps/calculadora_lrt.py:210 | stripping on the right removes exactly a suffix of white space |
| DateParsing.Normalize | apps/calculadora_lrt.py:222-225 | a match keeps year and month, goes to day 1 for the month-only formats and is unchanged otherwise |
| DateParsing.FirstFormatIsFirst | apps/calculadora_lrt.py:214-227 | the first format, in list order, that parses the text decides the date |
| DateParsing.FirstFormatNone | apps/calculadora_lrt.py:214-227 | no date from the format list exactly when every format fails |
| DateParsing.NumericPair | apps/calculadora_lrt.py:229-237 | the "year-month" / "year/month" fallback only gives a valid first-of-month date with a year in 1900..2100 |
| DateParsing.NumericPairRoundTrip | apps/calculadora_lrt.py:229-237 | writing a year in 1900..2100 and a month with "-" or "/" and parsing it back gives that month's first day |
| DateParsing.NumericPairYearRange | apps/calculadora_lrt.py:233-235 | a year outside 1900..2100 is refused |
| DateParsing.SafeParseDate | apps/calculadora_lrt.py:204-247 | blank text gives nothing; otherwise the format list, then the numeric pair, then the general parser, in that order |
| Months.MonthName | apps/calculadora_lrt.py:331-335 | the Spanish month name, with Python's negative indexing for 0..−11, and nothing outside −11..12 |
| Months.MonthNameInjective | apps/calculadora_lrt.py:331-335 | different months have different names |
| Months.MonthTableFacts | apps/calculadora_lrt.py:425-431 | the month dictionary maps 29 keys to months 1..12, and the twelve full names are distinct |
| Months.Lookup | apps/calculadora_lrt.py:443-444 | the dictionary lookup finds a key exactly when the key is present, with that key's month |
| Months.LookupAt | apps/calculadora_lrt.py:443-444 | the lookup gives the month of the first entry with that key |
| Months.FirstPrefix | apps/calculadora_lrt.py:445-448 | the loose match yields the month of an entry sharing a three-letter prefix either way, and nothing when no entry does |
| Months.FirstPrefixAt | apps/calculadora_lrt.py:445-448 | the loose match picks the first such entry in dictionary order |
| Months.MonthOf | apps/calculadora_lrt.py:433-450 | a cell read as a number is that number; nothing comes back only when no dictionary key matches even loosely |
| Months.ConvertMonth | apps/calculadora_lrt.py:433-450 | `convertir_mes`: a number first, then the exact key, then the loose prefix match |
| Months.LooseMatch | apps/calculadora_lrt.py:445-448 | the loop over the dictionary computes the first loose match |
| Months.MonthOfNamesInRange | apps/calculadora_lrt.py:433-450 | a cell that is not a number converts to a month in 1..12 or to nothing |
| Months.MonthOfNumber | apps/calculadora_lrt.py:436-439 | a numeric cell converts to its own value, even outside 1..12 |
| Months.MonthOfKey | apps/calculadora_lrt.py:443-444 | each full Spanish month name converts to its month |
| Months.MonthOfBlank | apps/calculadora_lrt.py:445-448 | blank text (such as a cell of spaces, which strips to "") matches "enero" loosely, so it converts to month 1 |
| NumberWords.GroupWords | apps/calculadora_lrt.py:264-289 | a group of three digits has words exactly when it is not zero; 100 is "CIEN"; single digits are their unit words |
| NumberWords.IntegerWordsEmpty | apps/calculadora_lrt.py:291-327 | the integer part has no words exactly when it is zero |
| NumberWords.Join4 | apps/calculadora_lrt.py:294-327 | the parts join with single spaces, starting with the first part that has words |
| NumberWords.SpellingOf22 | apps/calculadora_lrt.py:264-279 | 22 is spelled "VEINTEIDOS" |
| NumberWords.SpellingOf1000 | apps/calculadora_lrt.py:320-325 | 1000 is spelled "UN MIL" |
| NumberWords.SpellingOfMillions | apps/calculadora_lrt.py:309-312 | 2000000 is spelled "DOS MILLÓNES" |
| NumberWords.NumberToWords | apps/calculadora_lrt.py:257-329 | zero is "CERO PESOS"; an integer part of 10^12 or more fails; otherwise "PESOS", the integer words, "CON", two cents digits, "/100" |
| NumberWords.IntegerText | apps/calculadora_lrt.py:294-327 | the loop over the groups produces the reference reading of the integer part |
| NumberWords.BillionsText | apps/calculadora_lrt.py:294-308 | from 10^9 up: thousands of millions, then the rest, give the reference reading |
| NumberWords.MillionsText | apps/calculadora_lrt.py:309-319 | from 10^6 to 10^9: millions, then the rest, give the reference reading |
| NumberWords.ThousandsText | apps/calculadora_lrt.py:320-325 | from 1000 to 10^6: thousands, then units, give the reference reading |
| NumberWords.RoundHalfEven | apps/calculadora_lrt.py:292 | `round()` on the cents: the floor or the next integer, strictly nearest when not a tie, and the even one on a tie |
| NumberWords.CentsPart | apps/calculadora_lrt.py:291-292 | the cents are between 0 and 100 |
| Currency.FormatCurrency | apps/ibm.py:98-106 | no amount prints "$0,00"; otherwise "$", the input's own sign, the amount rounded half-up to cents with "." between thousands and "," before the two cents digits |
| Currency.NegativeZeroShown | apps/ibm.py:102-106 | an amount just below zero keeps its sign: -0.001 prints "$-0,00" |
| Currency.EnglishToArgentine | apps/ibm.py:104-105 | swapping separators in the English form gives the Argentine form |
| Currency.FormatParseRoundTrip | apps/ibm.py:98-106 | reading back the formatted amount gives the amount rounded half-up to cents |
| Currency.ParseMagnitude | apps/ibm.py:98-106 | a sign and a whole number of cents, written the Argentine way, read back as the signed amount |
| Currency.GroupedDigits | apps/ibm.py:104 | the thousands-grouped digits are the number's digits |
| IndexSeries.LastAtOrBefore | apps/calculadora_lrt.py:607-611 | the last index row dated on or before the date, or nothing when every row is later |
| IndexSeries.LastAtOrBeforeMonotone | apps/calculadora_lrt.py:607-611 | a later date never picks an earlier row |
| IndexSeries.LastAtOrBeforeLatest | apps/calculadora_lrt.py:607-611 | a date on or after the last row picks the last row |
| InjuryData.FloorFor | apps/calculadora_lrt.py:585-600 | nothing exactly when no row covers the date; otherwise the floor of a covering row, an open-ended one only when no bounded row covers the date; the row picked is the first bounded row holding the date (`FirstBounded`), else the last open-ended row in force (`LastOpen`) |
| InjuryData.GetFloor | apps/calculadora_lrt.py:585-600 | the table loop computes the floor for the date |
| InjuryData.FirstBounded | apps/calculadora_lrt.py:597-599 | the first row with an end date whose range holds the date |
| InjuryData.LastOpen | apps/calculadora_lrt.py:590-596 | the last open-ended row already in force |
| InjuryData.FloorForFound | apps/calculadora_lrt.py:585-600 | a floor is found exactly when some row covers the date |
| InjuryData.BoundedWins | apps/calculadora_lrt.py:591-599 | a bounded row covering the date wins over every open-ended row |
| InjuryData.RipteCoefficient | apps/calculadora_lrt.py:604-605 | an empty index gives coefficient 1 with both values 0 |
| InjuryData.RipteCoefficientRows | apps/calculadora_lrt.py:602-617 | final value is the last row; PMI value is the row that `LastAtOrBefore` picks (the last one dated on or before the PMI), or the first row when there is none; coefficient is their ratio, or 1 when the PMI value is not positive |
| InjuryData.RipteCoefficientAtLatest | apps/calculadora_lrt.py:607-615 | a PMI on or after the last published index gives coefficient 1, whatever that index's value |
| InjuryData.RipteCoefficientAtLeastOne | apps/calculadora_lrt.py:602-617 | a non-decreasing index gives a coefficient of at least 1 |
| InjuryData.OverlapDays | apps/calculadora_lrt.py:642-646 | the days a rate row shares with the period, both ends included, never negative |
| InjuryData.OverlapWithinPeriod | apps/calculadora_lrt.py:642-646 | a row never shares more days than the period or the row itself has |
| InjuryData.Contribution | apps/calculadora_lrt.py:645-655 | a row's portion, when it has one, is whole cents |
| InjuryData.Contributions | apps/calculadora_lrt.py:626-655 | one portion per row, in table order |
| InjuryData.Accrue | apps/calculadora_lrt.py:624-656 | the accrued percentage is whole cents |
| InjuryData.AccrueStep | apps/calculadora_lrt.py:656 | each row adds its rounded portion and rounds the sum |
| InjuryData.RowContribution | apps/calculadora_lrt.py:627-655 | one pass of the loop body computes the row's portion |
| InjuryData.LendingRateAccrual | apps/calculadora_lrt.py:619-661 | an empty table gives (0, capital) unchanged; otherwise the accrued percentage and the capital grown by it, rounded |
| InjuryData.EmptyPeriodNoContribution | apps/calculadora_lrt.py:645 | when the final date precedes the PMI, no row contributes |
| InjuryData.EmptyPeriodAccruesNothing | apps/calculadora_lrt.py:645-661 | when the final date precedes the PMI, nothing accrues and the capital is only rounded |
| InjuryData.AccruedPctNonNegative | apps/calculadora_lrt.py:624-656 | non-negative rates accrue a non-negative percentage |
| InjuryData.SingleRateAccrual | apps/calculadora_lrt.py:642-656 | one row covering the whole period accrues its rate times the period's days over 30, rounded to cents once |
| InjuryData.Grown | apps/calculadora_lrt.py:659 | the updated capital is whole cents within half a cent of the capital plus the percentage of it |
| InjuryData.GrownAtLeast | apps/calculadora_lrt.py:659 | a non-negative percentage never lowers a non-negative capital |
| InjuryCalculator.CapitalFormula | apps/calculadora_lrt.py:745-748 | the formula's value is whole cents |
| InjuryCalculator.CapitalFormulaGrowsWithIncome | apps/calculadora_lrt.py:745-748 | a higher IBM never gives less capital |
| InjuryCalculator.CapitalFormulaFallsWithAge | apps/calculadora_lrt.py:745-748 | an older worker never gets more capital |
| InjuryCalculator.ApplyFloor | apps/calculadora_lrt.py:750-761 | no floor keeps the capital with its message; otherwise the floor applies exactly when the capital is below the proportional floor; the result is never below either and is one of the two |
| InjuryCalculator.ApplyFloorMessage | apps/calculadora_lrt.py:758-761 | the message says whether the floor was applied and names its resolution |
| InjuryCalculator.ApplyFloorCents | apps/calculadora_lrt.py:750-761 | the capital after the floor is whole cents |
| InjuryCalculator.Additional | apps/calculadora_lrt.py:704 | the 20 % add-on is whole cents, zero when not asked for and never negative on a non-negative capital |
| InjuryCalculator.Interest | apps/calculadora_lrt.py:712-714 | the 3 % interest is whole cents and zero over zero days |
| InjuryCalculator.BaseCapitalOf | apps/calculadora_lrt.py:697-705 | the base capital is the floored formula plus the add-on, in whole cents, and equals the floored capital without the add-on |
| InjuryCalculator.BaseWithAdditional | apps/calculadora_lrt.py:704-705 | the add-on never lowers the base capital |
| InjuryCalculator.UpdateByRipte | apps/calculadora_lrt.py:707-715 | the RIPTE update is base × coefficient rounded, plus interest; no days means no interest; coefficient 1 leaves the base |
| InjuryCalculator.ComputeIndemnity | apps/calculadora_lrt.py:694-743 | every field of the result: the floor for the PMI, the base capital, the RIPTE coefficient and update, the lending-rate accrual |
| InjuryCalculator.MostFavourable | apps/calculadora_lrt.py:1050-1055 | the chosen total is the larger of the two updates; RIPTE is kept on a tie |
| Severance.Tenure | apps/calculadora_despidos.py:120-138 | leftover months are 0..3; the years and months cover the whole months elapsed; they equal them exactly when 3 or fewer months are left over; with more left over, the months are 0 and the years round up |
| Severance.ComputeTenure | apps/calculadora_despidos.py:120-138 | `calcular_antiguedad` computes the tenure |
| Severance.TenureYears | apps/calculadora_despidos.py:129-136 | the years are the whole months plus 8, divided by 12 |
| Severance.TenureYearsMonotone | apps/calculadora_despidos.py:120-138 | a later dismissal never gives fewer years |
| Severance.TenureNonNegative | apps/calculadora_despidos.py:120-138 | a dismissal on or after the start gives non-negative years |
| Severance.TenureExample | apps/calculadora_despidos.py:134-136 | 4 years and 4 months count as 5 years |
| Severance.VacationDays | apps/calculadora_despidos.py:141-150 | 14, 21, 28 or 35 days; 14 exactly under 5 years; 21 exactly from 5 to under 10; 35 exactly from 20 years |
| Severance.VacationDaysMonotone | apps/calculadora_despidos.py:141-150 | more tenure never gives fewer vacation days |
| Severance.SemesterStart | apps/calculadora_despidos.py:557-560 | the half-year starts January 1 through June and July 1 after |
| Severance.SacDays | apps/calculadora_despidos.py:557-562 | the days since the half-year began are 0..183, zero exactly on its first day |
| Severance.NoticePay | apps/calculadora_despidos.py:531-540 | nothing when notice was given; one salary under 5 years; two salaries from 5 years |
| Severance.DaysPaySplit | apps/calculadora_despidos.py:542-554 | the days worked and the integration add up to one salary |
| Severance.ExactConcepts | apps/calculadora_despidos.py:525-568 | each concept before rounding, as the law's formula for it |
| Severance.IntegrationZeroIffLastDay | apps/calculadora_despidos.py:547-554 | with a non-zero salary, the integration and its SAC are zero exactly on the month's last day |
| Severance.Quantized | apps/calculadora_despidos.py:571-579 | every concept is quantized to whole cents |
| Severance.SeveranceTotal | apps/calculadora_despidos.py:581-583 | the total is whole cents |
| Severance.TotalNearExact | apps/calculadora_despidos.py:571-583 | the total is within 4.5 cents of the sum of the unrounded concepts |
| Severance.TotalDiffersFromRoundedSum | apps/calculadora_despidos.py:571-583 | a salary of 100000 dismissed on 31 January 2023 totals 168885.85, while rounding the exact sum gives 168885.84 |
| SeveranceUpdate.StartValue | apps/calculadora_despidos.py:164-168 | the index on the start date: the last row on or before it, else the first row |
| SeveranceUpdate.EndValue | apps/calculadora_despidos.py:170-175 | the index on the final date: the last row on or before it, else the last row |
| SeveranceUpdate.RipteFactor | apps/calculadora_despidos.py:177 | the coefficient times the start index is the final index, or 1 when the start index is not positive |
| SeveranceUpdate.RipteUpdate | apps/calculadora_despidos.py:153-190 | an empty index leaves the amount; otherwise the amount times the coefficient, plus 3 % of it |
| SeveranceUpdate.SameDayFactorOne | apps/calculadora_despidos.py:164-177 | when some index row is dated on or before the day, the same start and final date give coefficient 1 (with no such row the start is the first row and the end the last, so the coefficient is last over first) |
| SeveranceUpdate.RipteFactorAtLeastOne | apps/calculadora_despidos.py:164-177 | a non-decreasing index gives a coefficient of at least 1 |
| SeveranceUpdate.RipteUpdateGrows | apps/calculadora_despidos.py:177-185 | a non-decreasing index gives at least the amount plus 3 % |
| SeveranceUpdate.TasaPortion | apps/calculadora_despidos.py:209-247 | a row without both ends, or without a rate, adds nothing |
| SeveranceUpdate.TasaPortions | apps/calculadora_despidos.py:208-247 | one portion per row, in table order |
| SeveranceUpdate.TotalAppend | apps/calculadora_despidos.py:247 | totals of joined lists add up |
| SeveranceUpdate.TasaUpdate | apps/calculadora_despidos.py:196-197 | an empty table leaves the amount |
| SeveranceUpdate.ActualizarTasa | apps/calculadora_despidos.py:193-254 | the row loop computes the lending-rate update |
| SeveranceUpdate.RowPortion | apps/calculadora_despidos.py:209-247 | one pass of the loop body computes the row's portion |
| SeveranceUpdate.GrowBy | apps/calculadora_despidos.py:250 | the amount grows by exactly the percentage of itself; a non-negative percentage never lowers a non-negative amount |
| SeveranceUpdate.SingleRateUpdate | apps/calculadora_despidos.py:209-250 | one row covering the whole period grows the amount by its rate times the period's days over 30, unrounded |
| SeveranceUpdate.TasaUpdateGrows | apps/calculadora_despidos.py:193-254 | non-negative rates never lower a non-negative amount |
| Ibm.FirstMatch | apps/ibm.py:54-59 | the first position holding the key, and nothing exactly when none does |
| Ibm.IndexFor | apps/ibm.py:52-60 | no index exactly when no row has that year and that month's first three letters |
| Ibm.IndexForFirstRow | apps/ibm.py:52-60 | the index is that of the first matching row |
| Ibm.IndexForIgnoresSuffix | apps/ibm.py:56 | month names with the same first three letters, in any case, find the same index |
| Ibm.Variation | apps/ibm.py:62-70 | a variation exactly when both indices exist and the first is non-zero; the first index times (1 + variation) is the second |
| Ibm.VariationSameMonth | apps/ibm.py:62-70 | a month against itself varies by 0 |
| Ibm.UpdatedSalary | apps/ibm.py:250-253 | no variation, or no positive salary, leaves the salary |
| Ibm.UpdatedSalaryFollowsIndex | apps/ibm.py:250-253 | the updated salary over the original equals the later index over the earlier one |
| Ibm.MonthsBefore | apps/ibm.py:72-80 | the given number of months before the PMI, oldest first, each one month before the next, the last one month before the PMI |
| Ibm.MonthLabel | apps/ibm.py:82-86 | the label starts with the month's abbreviation followed by ".-"; for a four-digit year, two digits follow that read as the year modulo 100 |
| Ibm.YearSuffix | apps/ibm.py:85 | `str(year)[2:]` of a four-digit year is two digits whose value is the year modulo 100 |
| Ibm.BeforeSeparator | apps/ibm.py:242 | `split('.-')[0]` is a prefix of the text; it is either the whole text or is followed by ".-"; no ".-" starts inside it |
| Ibm.MonthOfLabel | apps/ibm.py:242 | splitting the label on ".-" gives back the abbreviation |
| Ibm.SplitAfterThree | apps/ibm.py:86 | three letters without a dot followed by ".-" split back to the three letters |
| Ibm.LabelFindsMonth | apps/ibm.py:242-247 | the abbreviation taken from the label finds the same index as the full month name |
| Ibm.DaysOfMonth | apps/ibm.py:88-96 | the last day of the month is the month's length |
| Ibm.MonthsWithData | apps/ibm.py:301 | the number of counted months never exceeds the number of rows |
| Ibm.MonthlyBaseIncome | apps/ibm.py:303-308 | the IBM is whole cents, and zero without counted months |
| Ibm.UncountedRowsIgnored | apps/ibm.py:298-308 | rows left out, or with no positive salary, contribute nothing |
| Ibm.TotalBounds | apps/ibm.py:299-301 | the updated total lies between the count times the lowest and the count times the highest counted salary |
| Ibm.AverageBounds | apps/ibm.py:298-308 | the IBM lies within half a cent of the range of the counted updated salaries |
| Ibm.PlainTextTotals | apps/ibm.py:127-137 | the text report's loop computes the same totals and count as the summary |
| Ibm.BuildRow | apps/ibm.py:216-257 | the row holds the month's label, the salary and check box entered, the variation from the month's abbreviation to the PMI's, the salary updated by it, and the month's length in days |
| Ibm.BuildTable | apps/ibm.py:215-292 | one built row per month, in order, each holding the salary and check box entered for it |
| Ibm.BuiltFromSnoc | apps/ibm.py:284-292 | appending a row built for the next month keeps the whole table built |
| Ibm.EnteredSnoc | apps/ibm.py:284-292 | appending a row keeps every row holding the salary and check box entered at its position |
| Ibm.UpdatedSalaryGrows | apps/ibm.py:250-253 | a positive salary updated by a non-negative variation is not smaller |
| Ibm.TotalsGrow | apps/ibm.py:298-299 | when every counted row's updated salary is at least its salary, the updated total is at least the original total |
| Ibm.BuiltTotalsGrow | apps/ibm.py:247-253 | in a built table where no variation is negative, the updated total is at least the original total |

## Left out

- Floating point. Money and percentages are exact reals. Python `float` and the 28-digit `Decimal` context have no precision limit here, and neither does the `Decimal(str(x))` conversion.
- `strptime`, `pd.to_datetime` and `relativedelta` parsing are parameters of `DateParsing.SafeParseDate`. Their own behaviour is not modelled.
- `Text.Lower` and `Text.Strip` handle ASCII only. Python's Unicode case folding and white-space classes are not modelled.
- `float()` on text accepts signed plain decimals only. Exponents, `inf`, `nan`, underscores and non-ASCII digits are not modelled.
- Text.ParseInt: `int()` also accepts underscores between digits ("2_024") and non-ASCII decimal digits, which the model refuses. So `safe_parse_date("2_024-05")` takes the numeric-pair branch in the source but not in the model.
- Years above 9999 (where `datetime.date` raises) are not bounded. `Ibm.MonthsBefore` requires the PMI to lie more than `cantidad` months after year 1, because the model has no error for going before year 1.
- The IPC inflation figure (`calcular_inflacion`, `calcular_ipc_acumulado`) is not modelled. `InjuryCalculator.ComputeIndemnity`'s result has no inflation field.
- Ibm.BuildTable: the salary and check box of each month come from input widgets, so they are parameters. The row's `ripte` entry (the month's own index, shown in the table and the text report) is only displayed and is not a field of `Ibm.SalaryRow`.
- The date sort in `apps/calculadora_lrt.py` (`sort_values` at lines 487, 530-531, 567 and 583) is not modelled. Its inputs are taken already sorted. `sort_values` is not stable, so rows with equal dates may leave file order, and the model does not say which order they take.
- Months.MonthOf: a cell pandas reads as missing (an empty CSV field is NaN) gives None through `pd.isna(valor)` at apps/calculadora_lrt.py:434-435. `MonthOf` works on text only and does not model that branch.
- Court fees, the Streamlit UI, CSV loading and column normalisation, PDF and HTML output, authentication and `formatear_porcentaje` are not modelled.
- The exception handlers that return `monto_base` on error are not modelled. The model's inputs are well-formed rows, so the guarded code cannot raise.
- `apps/calculadora_lrt.py` `get_ripte_coeficiente` takes a `fecha_final` but never uses it: the final value is always the last published index. The model follows the code.
- InjuryData.LendingRateAccrual: the running total is rounded after every row. `Rounding.RoundingOrderMatters` shows this differs from rounding once at the end, so the model keeps the per-row rounding.
- Severance.IntegrationZeroIffLastDay: requires a non-zero salary. With a zero salary every concept is zero on any day.
- NumberWords.NumberToWords: amounts of 10^12 or more raise `IndexError` in the source. The model returns `None` for them.
- `apps/calculadora_despidos.py` `safe_parse_date` duplicates the modelled date parser and is not modelled separately.
- `apps/calculadora_despidos.py` `formato_moneda` (lines 295-297) prints "$ " with a space and formats the binary float with `:,.2f`, with no half-up quantize. It is left out as float formatting.
- Currency.FormatCurrency: Python's float -0.0 prints "$-0,00", but exact reals have no negative zero, so the model prints "$0,00" for it.
