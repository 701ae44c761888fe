/**
  Month names in apps/calculadora_lrt.py: `get_mes_nombre`, the Spanish
  name of a month number, and `convertir_mes`, which reads the month column
  of a CSV row as a number, a Spanish or English name, or an abbreviation.
 */
module Months {
  import opened Options
  import opened Text

  const SpanishNames: seq<string> := [
    "Enero", "Febrero", "Marzo", "Abril", "Mayo", "Junio",
    "Julio", "Agosto", "Septiembre", "Octubre", "Noviembre", "Diciembre"
  ]

  /**
    `get_mes_nombre(mes)`, i.e. `meses[mes - 1]` with Python's indexing:
    0 down to -11 count from the end of the list, anything else raises
    IndexError (`None` here).
   */
  function MonthName(mes: int): (r: Option<string>)
    ensures 1 <= mes <= 12 ==> r == Some(SpanishNames[mes - 1])
    ensures -11 <= mes <= 0 ==> r == Some(SpanishNames[mes + 11])
    ensures r.None? <==> mes < -11 || mes > 12
  {
    var i := mes - 1;
    if 0 <= i < 12 then Some(SpanishNames[i])
    else if -12 <= i < 0 then Some(SpanishNames[12 + i])
    else None
  }

  /** Different months have different names. */
  lemma MonthNameInjective(a: int, b: int)
    requires 1 <= a <= 12 && 1 <= b <= 12 && a != b
    ensures MonthName(a) != MonthName(b)
  {
    NamesDistinct();
  }

  lemma NamesDistinct()
    ensures forall j, k :: 0 <= j < k < 12 ==> SpanishNames[j] != SpanishNames[k]
  {
  }

  /** A `meses_dict` entry: a key and its month number. */
  type Entry = (string, int)

  /** `meses_dict`, in its insertion order: full Spanish names, English abbreviations, Spanish ones. */
  const MonthTable: seq<Entry> := [
    ("enero", 1), ("febrero", 2), ("marzo", 3), ("abril", 4), ("mayo", 5), ("junio", 6),
    ("julio", 7), ("agosto", 8), ("septiembre", 9), ("octubre", 10), ("noviembre", 11), ("diciembre", 12),
    ("jan", 1), ("feb", 2), ("mar", 3), ("apr", 4), ("may", 5), ("jun", 6),
    ("jul", 7), ("aug", 8), ("sep", 9), ("oct", 10), ("nov", 11), ("dec", 12),
    ("ene", 1), ("abr", 4), ("ago", 8), ("set", 9), ("dic", 12)
  ]

  /** What the dictionary holds: every month number is in 1..12, and the first twelve keys differ. */
  lemma MonthTableFacts()
    ensures |MonthTable| == 29
    ensures forall i :: 0 <= i < |MonthTable| ==> 1 <= MonthTable[i].1 <= 12
    ensures forall j, k :: 0 <= j < k < 12 ==> MonthTable[j].0 != MonthTable[k].0
  {
  }

  /** `table[v]` on a dictionary listed as entries: the first entry from `i` whose key is `v`. */
  function Lookup(table: seq<Entry>, v: string, i: nat): (r: Option<int>)
    requires i <= |table|
    ensures r.Some? ==> exists k :: i <= k < |table| && table[k] == (v, r.value)
    ensures r.None? <==> forall k :: i <= k < |table| ==> table[k].0 != v
    decreases |table| - i
  {
    if i == |table| then None
    else if table[i].0 == v then Some(table[i].1)
    else Lookup(table, v, i + 1)
  }

  /** The dictionary answers with the first entry whose key is `v`. */
  lemma {:induction false} LookupAt(table: seq<Entry>, v: string, i: nat, k: nat)
    requires i <= k < |table| && table[k].0 == v
    requires forall j :: i <= j < k ==> table[j].0 != v
    ensures Lookup(table, v, i) == Some(table[k].1)
    decreases k - i
  {
    if i < k {
      LookupAt(table, v, i + 1, k);
    }
  }

  /** The loose match of the last step: either text starts with the first three letters of the other. */
  predicate PrefixMatch(name: string, v: string) {
    StartsWith(name, Take(v, 3)) || StartsWith(v, Take(name, 3))
  }

  /** The number of the first entry, in dictionary order from `i`, whose key matches `v` loosely. */
  function FirstPrefix(table: seq<Entry>, v: string, i: nat): (r: Option<int>)
    requires i <= |table|
    ensures r.Some? ==> exists k :: i <= k < |table| && PrefixMatch(table[k].0, v) && r.value == table[k].1
    ensures r.None? ==> forall k :: i <= k < |table| ==> !PrefixMatch(table[k].0, v)
    decreases |table| - i
  {
    if i == |table| then None
    else if PrefixMatch(table[i].0, v) then Some(table[i].1)
    else FirstPrefix(table, v, i + 1)
  }

  /** The loose match answers with the first entry that matches. */
  lemma {:induction false} FirstPrefixAt(table: seq<Entry>, v: string, i: nat, k: nat)
    requires i <= k < |table| && PrefixMatch(table[k].0, v)
    requires forall j :: i <= j < k ==> !PrefixMatch(table[j].0, v)
    ensures FirstPrefix(table, v, i) == Some(table[k].1)
    decreases k - i
  {
    if i < k {
      FirstPrefixAt(table, v, i + 1, k);
    }
  }

  /** What `convertir_mes` answers for the text `v`, already stripped and lower-cased. */
  function MonthOfText(v: string): Option<int> {
    var n := ParseFloatTrunc(v);
    if n.Some? then n
    else if Lookup(MonthTable, v, 0).Some? then Lookup(MonthTable, v, 0)
    else FirstPrefix(MonthTable, v, 0)
  }

  /** What `convertir_mes` answers for a cell with text `valor`. */
  function MonthOf(valor: string): (r: Option<int>)
    ensures ParseFloatTrunc(Lower(Strip(valor))).Some? ==> r == ParseFloatTrunc(Lower(Strip(valor)))
    ensures r.None? ==> forall k :: 0 <= k < |MonthTable| ==> !PrefixMatch(MonthTable[k].0, Lower(Strip(valor)))
  {
    MonthOfText(Lower(Strip(valor)))
  }

  /**
    `convertir_mes(valor)` on the text of a cell. The numeric reading is
    returned as it is, even outside 1..12; a name gives its month.
   */
  method ConvertMonth(valor: string) returns (r: Option<int>)
    ensures r == MonthOf(valor)
  {
    var v := Lower(Strip(valor));
    var n := ParseFloatTrunc(v);
    if n.Some? {
      return n;
    }
    var exact := Lookup(MonthTable, v, 0);
    if exact.Some? {
      return exact;
    }
    r := LooseMatch(v);
  }

  /** The last loop of `convertir_mes`: the first entry, in dictionary order, that matches loosely. */
  method LooseMatch(v: string) returns (r: Option<int>)
    ensures r == FirstPrefix(MonthTable, v, 0)
  {
    var i := 0;
    while i < |MonthTable|
      invariant 0 <= i <= |MonthTable|
      invariant FirstPrefix(MonthTable, v, i) == FirstPrefix(MonthTable, v, 0)
    {
      var (name, num) := MonthTable[i];
      if StartsWith(name, Take(v, 3)) || StartsWith(v, Take(name, 3)) {
        return Some(num);
      }
      i := i + 1;
    }
    return None;
  }

  /** A text that is not a number names a month in 1..12, or nothing. */
  lemma MonthOfNamesInRange(valor: string)
    requires ParseFloatTrunc(Lower(Strip(valor))).None?
    ensures MonthOf(valor).Some? ==> 1 <= MonthOf(valor).value <= 12
  {
    MonthTableFacts();
  }

  /** A number written out reads back as that number, whether or not it is a month. */
  lemma MonthOfNumber(n: nat)
    ensures MonthOf(NatToString(n)) == Some(n)
  {
    var s := NatToString(n);
    calc {
      MonthOf(s);
      MonthOfText(Lower(Strip(s)));
      { DigitsNoSpace(s); StripOfUnspaced(s); LowerOfDigits(s); }
      MonthOfText(s);
      { ParseIntOfString(n); ParseIntTruncates(s); }
      Some(n);
    }
  }

  lemma LowerOfDigits(s: string)
    requires AllDigits(s)
    ensures Lower(s) == s
  {
    assert forall i :: 0 <= i < |s| ==> Lower(s)[i] == s[i];
  }

  /** Each full Spanish key of the dictionary, as `convertir_mes` holds it after strip and lower, reads back as its month. */
  lemma MonthOfKey(k: nat)
    requires k < 12
    ensures MonthOfText(MonthTable[k].0) == Some(k + 1)
  {
    MonthTableFacts();
    assert MonthTable[k].1 == k + 1 && |MonthTable[k].0| > 0 && 'a' <= MonthTable[k].0[0] <= 'z';
    LetterNotNumber(MonthTable[k].0);
    LookupAt(MonthTable, MonthTable[k].0, 0, k);
  }

  /** Every key has at least three letters, so shorter text is never a key and only matches loosely. */
  lemma KeysAreLong()
    ensures forall i :: 0 <= i < |MonthTable| ==> |MonthTable[i].0| >= 3
  {
  }

  /** Blank text is a prefix of every key, so it reads as January. */
  lemma MonthOfBlank()
    ensures MonthOfText("") == Some(1)
  {
    assert Split("", '.') == [""];
    assert ParseFloatTrunc("") == None;
    KeysAreLong();
    assert Lookup(MonthTable, "", 0).None?;
    assert PrefixMatch(MonthTable[0].0, "");
  }
}
