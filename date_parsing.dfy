/**
  `safe_parse_date` (apps/calculadora_lrt.py): the text of a CSV cell or a
  form field read as a date. The library parsers it tries in turn
  (`datetime.strptime` with twelve formats, then `pandas.to_datetime`) are
  parameters here; what the function itself decides is modelled: the order
  of the formats, the "month and year only" formats that land on day 1,
  and the numeric "year-month" fallback between the two library calls.
 */
module DateParsing {
  import opened Options
  import opened Text
  import opened Dates

  /** The formats, in the order they are tried. */
  const Formats: seq<string> := [
    "%Y-%m-%d", "%d/%m/%Y", "%d-%m-%Y", "%m/%Y", "%Y/%m/%d", "%Y-%m",
    "%Y-%m-%d %H:%M:%S", "%d/%m/%Y %H:%M:%S", "%B %Y", "%b %Y",
    "%Y/%m", "%m-%Y"
  ]

  /** The formats that carry no day: a match means the first of that month. */
  predicate MonthOnly(f: string) {
    f == "%m/%Y" || f == "%Y-%m" || f == "%Y/%m" || f == "%m-%Y" || f == "%B %Y" || f == "%b %Y"
  }

  /**
    A `strptime` match as the loop returns it: the calendar date of the
    parsed timestamp, moved to day 1 for a month-only format.
   */
  function Normalize(f: string, d: Date): (r: Date)
    ensures r.year == d.year && r.month == d.month
    ensures MonthOnly(f) ==> r.day == 1
    ensures !MonthOnly(f) ==> r == d
  {
    if MonthOnly(f) then Date(d.year, d.month, 1) else d
  }

  /** The first of `Formats[i..]` that `strptime` accepts, normalized; `None` when none does. */
  function FirstFormat(s: string, strptime: (string, string) -> Option<Date>, i: nat): Option<Date>
    requires i <= |Formats|
    decreases |Formats| - i
  {
    if i == |Formats| then None
    else match strptime(s, Formats[i])
      case Some(d) => Some(Normalize(Formats[i], d))
      case None => FirstFormat(s, strptime, i + 1)
  }

  /** A format earlier in the list always wins over a later one. */
  lemma {:induction false} FirstFormatIsFirst(s: string, strptime: (string, string) -> Option<Date>, i: nat, k: nat)
    requires i <= k < |Formats|
    requires strptime(s, Formats[k]).Some?
    requires forall j :: i <= j < k ==> strptime(s, Formats[j]).None?
    ensures FirstFormat(s, strptime, i) == Some(Normalize(Formats[k], strptime(s, Formats[k]).value))
    decreases k - i
  {
    if i < k {
      FirstFormatIsFirst(s, strptime, i + 1, k);
    }
  }

  /** The formats are tried only while none matched: no match at all means `None`. */
  lemma {:induction false} FirstFormatNone(s: string, strptime: (string, string) -> Option<Date>, i: nat)
    requires i <= |Formats|
    ensures FirstFormat(s, strptime, i).None? <==> forall j :: i <= j < |Formats| ==> strptime(s, Formats[j]).None?
    decreases |Formats| - i
  {
    if i < |Formats| {
      FirstFormatNone(s, strptime, i + 1);
    }
  }

  /**
    The numeric fallback: text with a '/' or '-' that splits into exactly
    two integers, a year in 1900..2100 and then a month, is the first of
    that month. `None` means the code moves on to the next parser.
   */
  function NumericPair(s: string): (r: Option<Date>)
    ensures r.Some? ==> Valid(r.value) && r.value.day == 1 && 1900 <= r.value.year <= 2100
  {
    if '/' !in s && '-' !in s then None
    else
      var parts := Split(ReplaceChar(s, '/', '-'), '-');
      if |parts| != 2 then None
      else match (ParseInt(parts[0]), ParseInt(parts[1]))
        case (Some(year), Some(month)) =>
          if 1900 <= year <= 2100 && 1 <= month <= 12 then Some(Date(year, month, 1)) else None
        case _ => None
  }

  /** "YYYY-M" and "YYYY/M", as `str()` writes the numbers, read back as the first of that month. */
  lemma NumericPairRoundTrip(year: nat, month: nat, sep: char)
    requires 1900 <= year <= 2100 && 1 <= month <= 12
    requires sep == '-' || sep == '/'
    ensures NumericPair(NatToString(year) + [sep] + NatToString(month)) == Some(Date(year, month, 1))
  {
    var a, b := NatToString(year), NatToString(month);
    var s := a + [sep] + b;
    DigitsExclude(a);
    DigitsExclude(b);
    assert s[|a|] == sep;
    var t := ReplaceChar(s, '/', '-');
    assert t == a + ['-'] + b by {
      assert forall i :: 0 <= i < |s| ==> t[i] == (a + ['-'] + b)[i];
    }
    SplitPair(a, b, '-');
    ParseIntOfString(year);
    ParseIntOfString(month);
  }

  lemma DigitsExclude(s: string)
    requires AllDigits(s)
    ensures '-' !in s && '/' !in s
  {
  }

  /** A year outside 1900..2100 is never accepted by the fallback. */
  lemma NumericPairYearRange(year: nat, month: nat)
    requires year < 1900 || year > 2100
    ensures NumericPair(NatToString(year) + "-" + NatToString(month)).None?
  {
    var a, b := NatToString(year), NatToString(month);
    DigitsExclude(a);
    DigitsExclude(b);
    var s := a + "-" + b;
    assert ReplaceChar(s, '/', '-') == s by {
      ReplaceAbsent(s, '/', '-');
    }
    SplitPair(a, b, '-');
    ParseIntOfString(year);
  }

  /**
    `safe_parse_date` on text. `strptime(s, f)` is `datetime.strptime(s, f).date()`
    or `None` where it raises; `toDatetime(s)` is the date of
    `pd.to_datetime(s, dayfirst=True, errors="coerce")` or `None` for NaT.
   */
  method SafeParseDate(raw: string, strptime: (string, string) -> Option<Date>, toDatetime: string -> Option<Date>)
    returns (r: Option<Date>)
    ensures Strip(raw) == "" ==> r == None
    ensures Strip(raw) != "" && FirstFormat(Strip(raw), strptime, 0).Some? ==> r == FirstFormat(Strip(raw), strptime, 0)
    ensures Strip(raw) != "" && FirstFormat(Strip(raw), strptime, 0).None? && NumericPair(Strip(raw)).Some? ==>
              r == NumericPair(Strip(raw))
    ensures Strip(raw) != "" && FirstFormat(Strip(raw), strptime, 0).None? && NumericPair(Strip(raw)).None? ==>
              r == toDatetime(Strip(raw))
  {
    var s := Strip(raw);
    if s == "" {
      return None;
    }
    var i := 0;
    while i < |Formats|
      invariant 0 <= i <= |Formats|
      invariant FirstFormat(s, strptime, i) == FirstFormat(s, strptime, 0)
    {
      var f := Formats[i];
      var dt := strptime(s, f);
      if dt.Some? {
        if MonthOnly(f) {
          return Some(Date(dt.value.year, dt.value.month, 1));
        }
        return Some(dt.value);
      }
      i := i + 1;
    }
    var pair := NumericPair(s);
    if pair.Some? {
      return pair;
    }
    r := toDatetime(s);
  }
}
