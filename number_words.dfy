/**
  `numero_a_letras` and its inner `convertir_grupo` (apps/calculadora_lrt.py):
  an amount of pesos written out in Spanish capitals, as the judgment text
  prints it, e.g. "PESOS CIENTO VEINTE MIL CON 50/100".
  The spelling is the code's own: 21..29 are joined with "I" to "VEINTE"
  ("VEINTEIUN", "VEINTEIDOS"), several millions read "MILLÓNES", and
  1000 reads "UN MIL".
 */
module NumberWords {
  import opened Options
  import opened Text

  const Units: seq<string> := ["", "UN", "DOS", "TRES", "CUATRO", "CINCO", "SEIS", "SIETE", "OCHO", "NUEVE"]
  const Tens: seq<string> := ["", "", "VEINTE", "TREINTA", "CUARENTA", "CINCUENTA", "SESENTA", "SETENTA", "OCHENTA", "NOVENTA"]
  const Teens: seq<string> := ["DIEZ", "ONCE", "DOCE", "TRECE", "CATORCE", "QUINCE", "DIECISÉIS", "DIECISIETE", "DIECIOCHO", "DIECINUEVE"]
  const Hundreds: seq<string> := ["", "CIENTO", "DOSCIENTOS", "TRESCIENTOS", "CUATROCIENTOS", "QUINIENTOS", "SEISCIENTOS", "SETECIENTOS", "OCHOCIENTOS", "NOVECIENTOS"]

  /** `convertir_grupo(n)`: the words for a group of three digits; an empty group has no words. */
  function GroupWords(n: nat): (r: string)
    requires n < 1000
    ensures r == "" <==> n == 0
    ensures n == 100 ==> r == "CIEN"
    ensures 1 <= n < 10 ==> r == Units[n]
    decreases n
  {
    TablesHaveWords();
    if n == 0 then ""
    else if n == 100 then "CIEN"
    else if n < 10 then Units[n]
    else if n < 20 then Teens[n - 10]
    else if n < 100 then
      var dec, uni := n / 10, n % 10;
      if uni == 0 then Tens[dec] else Tens[dec] + (if dec > 2 then " Y " else "I") + Units[uni]
    else
      var cen, resto := n / 100, n % 100;
      if resto == 0 then Hundreds[cen] else Hundreds[cen] + " " + GroupWords(resto)
  }

  lemma TablesHaveWords()
    ensures forall i :: 1 <= i < 10 ==> Units[i] != "" && Hundreds[i] != ""
    ensures forall i :: 2 <= i < 10 ==> Tens[i] != ""
    ensures forall i :: 0 <= i < 10 ==> Teens[i] != ""
  {
  }

  const Thousand: nat := 1000
  const Million: nat := 1000000
  const Billion: nat := 1000000000

  /** The largest amount whose integer part `convertir_grupo` can spell: 10^12 - 1. */
  const Limit: nat := 1000000000000

  /** Reference reading of the integer part, group by group, from the thousands of millions down. */
  function BillionsPart(e: nat): string
    requires e < Limit
  {
    if e / Billion == 0 then "" else GroupWords(e / Billion) + " MIL"
  }

  function MillionsPart(e: nat): string {
    var m := e / Million % 1000;
    if m == 0 then "" else (if m > 1 then GroupWords(m) else "UN") + " MILLÓN" + (if m > 1 then "ES" else "")
  }

  function ThousandsPart(e: nat): string {
    var t := e / Thousand % 1000;
    if t == 0 then "" else GroupWords(t) + " MIL"
  }

  function UnitsPart(e: nat): string {
    GroupWords(e % 1000)
  }

  /** A part as it follows an earlier one: with a space in front, or nothing. */
  function Then(part: string): string {
    if part == "" then "" else " " + part
  }

  /** A part put before the words that follow it: nothing is added for an empty part, and no space before empty words. */
  function Lead(part: string, rest: string): (r: string)
    ensures r == "" <==> part == "" && rest == ""
  {
    if part == "" then rest else part + Then(rest)
  }

  /** Joining four parts: the first non-empty one, then every later non-empty one after a space. */
  lemma Join4(b: string, m: string, t: string, u: string)
    ensures b != "" ==> Lead(b, Lead(m, Lead(t, u))) == b + Then(m) + Then(t) + Then(u)
    ensures b == "" && m != "" ==> Lead(b, Lead(m, Lead(t, u))) == m + Then(t) + Then(u)
    ensures b == "" && m == "" && t != "" ==> Lead(b, Lead(m, Lead(t, u))) == t + Then(u)
    ensures b == "" && m == "" && t == "" ==> Lead(b, Lead(m, Lead(t, u))) == u
  {
    ThenLead(t, u);
    ThenLead(m, Lead(t, u));
    Regroup(m, Then(t), Then(u), "");
    Regroup(b, Then(m), Then(t), Then(u));
  }

  /** A led part as it follows an earlier one: the part, then the rest. */
  lemma ThenLead(p: string, r: string)
    ensures Then(Lead(p, r)) == Then(p) + Then(r)
  {
    if p != "" {
      assert " " + (p + Then(r)) == (" " + p) + Then(r);
    }
  }

  lemma Regroup(w: string, x: string, y: string, z: string)
    ensures w + (x + (y + z)) == w + x + y + z
  {
  }

  /** Reference reading of the integer part: the non-empty parts, from the thousands of millions down, one space apart. */
  function IntegerWords(e: nat): string
    requires e < Limit
  {
    Lead(BillionsPart(e), Lead(MillionsPart(e), Lead(ThousandsPart(e), UnitsPart(e))))
  }

  /** The integer part has words exactly when it is not zero. */
  lemma IntegerWordsEmpty(e: nat)
    requires e < Limit
    ensures IntegerWords(e) == "" <==> e == 0
  {
    if IntegerWords(e) == "" {
      assert BillionsPart(e) == "" && MillionsPart(e) == "" && ThousandsPart(e) == "" && UnitsPart(e) == "";
      assert e < Billion;
      assert e / Million < 1000;
      assert e < Million;
      assert e / Thousand < 1000;
      assert e < Thousand;
    }
  }

  /** With a single non-empty part, the integer part reads as that part alone. */
  lemma OnlyPart(e: nat)
    requires e < Limit
    ensures BillionsPart(e) == "" && MillionsPart(e) == "" && ThousandsPart(e) == "" ==> IntegerWords(e) == UnitsPart(e)
    ensures BillionsPart(e) == "" && MillionsPart(e) == "" && UnitsPart(e) == "" ==> IntegerWords(e) == ThousandsPart(e)
    ensures BillionsPart(e) == "" && ThousandsPart(e) == "" && UnitsPart(e) == "" ==> IntegerWords(e) == MillionsPart(e)
  {
    var t := ThousandsPart(e);
    var m := MillionsPart(e);
    assert Lead(t, "") == t + "" == t;
    assert Lead(m, "") == m + "" == m;
  }

  /** "I" joins the tens and units of 21..29. */
  lemma SpellingOf22()
    ensures IntegerWords(22) == "VEINTEIDOS"
  {
    assert 22 / Billion == 0 && 22 / Million % 1000 == 0 && 22 / Thousand % 1000 == 0;
    assert GroupWords(22) == "VEINTE" + "I" + "DOS";
    OnlyPart(22);
  }

  /** A thousand reads "UN MIL". */
  lemma SpellingOf1000()
    ensures IntegerWords(1000) == "UN MIL"
  {
    assert 1000 / Billion == 0 && 1000 / Million % 1000 == 0 && 1000 % 1000 == 0;
    assert 1000 / Thousand % 1000 == 1;
    assert ThousandsPart(1000) == "UN" + " MIL";
    OnlyPart(1000);
  }

  /** Several millions read "MILLÓNES". */
  lemma SpellingOfMillions()
    ensures IntegerWords(2000000) == "DOS MILLÓNES"
  {
    assert 2000000 / Billion == 0 && 2000000 / Thousand % 1000 == 0 && 2000000 % 1000 == 0;
    assert 2000000 / Million % 1000 == 2;
    assert MillionsPart(2000000) == "DOS" + " MILLÓN" + "ES";
    OnlyPart(2000000);
  }

  /** `round(x)` on a non-negative value: to the nearest integer, ties to even. */
  function RoundHalfEven(x: real): (r: int)
    requires x >= 0.0
    ensures r >= 0
    ensures -0.5 <= r as real - x <= 0.5
    ensures r == x.Floor || r == x.Floor + 1
    ensures x - x.Floor as real != 0.5 ==> -0.5 < r as real - x < 0.5
    ensures x - x.Floor as real == 0.5 ==> r % 2 == 0
  {
    var f := x.Floor;
    var gap := x - f as real;
    if gap < 0.5 then f else if gap > 0.5 then f + 1 else if f % 2 == 0 then f else f + 1
  }

  /** `f"{n:02d}"`. */
  function TwoDigits(n: nat): (s: string)
    ensures |s| >= 2
  {
    NatToStringLength(n);
    if n < 10 then "0" + NatToString(n) else NatToString(n)
  }

  /** The cents `numero_a_letras` prints: `int(round((numero - entero) * 100))`. */
  function CentsPart(numero: real): (c: nat)
    requires numero >= 0.0
    ensures c <= 100
  {
    RoundHalfEven((numero - numero.Floor as real) * 100.0)
  }

  /**
    `numero_a_letras(numero)` for the non-negative amounts it is called with.
    `None` is the IndexError `convertir_grupo` raises once the thousands of
    millions reach 1000.
   */
  method NumberToWords(numero: real) returns (r: Option<string>)
    requires numero >= 0.0
    ensures numero == 0.0 ==> r == Some("CERO PESOS")
    ensures numero != 0.0 && numero.Floor >= Limit ==> r == None
    ensures numero != 0.0 && numero.Floor < Limit ==>
              r == Some("PESOS " + IntegerWords(numero.Floor) + " CON " + TwoDigits(CentsPart(numero)) + "/100")
  {
    if numero == 0.0 {
      return Some("CERO PESOS");
    }
    var entero: nat := numero.Floor;
    var decimal := CentsPart(numero);
    if entero >= Limit {
      return None;
    }
    var texto := IntegerText(entero);
    return Some("PESOS " + texto + " CON " + TwoDigits(decimal) + "/100");
  }

  /** The words of the integer part, by the branch on its size that `numero_a_letras` takes. */
  method IntegerText(entero: nat) returns (texto: string)
    requires entero < Limit
    ensures texto == IntegerWords(entero)
  {
    if entero >= Billion {
      texto := BillionsText(entero);
    } else if entero >= Million {
      texto := MillionsText(entero);
    } else if entero >= Thousand {
      texto := ThousandsText(entero);
    } else {
      BillionsStep(entero);
      MillionsStep(entero, entero);
      ThousandsStep(entero, entero);
      UnitsStep(entero, entero);
      OnlyPart(entero);
      texto := GroupWords(entero);
    }
  }

  /** The branch from a thousand millions: the thousands of millions, then the millions left, then the rest. */
  method BillionsText(entero: nat) returns (texto: string)
    requires Billion <= entero < Limit
    ensures texto == IntegerWords(entero)
  {
    ghost var b, m, t, u := BillionsPart(entero), MillionsPart(entero), ThousandsPart(entero), UnitsPart(entero);
    Join4(b, m, t, u);
    BillionsStep(entero);
    var milesMillon := entero / Billion;
    var resto := entero % Billion;
    texto := GroupWords(milesMillon) + " MIL";
    assert texto == b;
    MillionsStep(entero, resto);
    if resto >= Million {
      var millones := resto / Million;
      resto := resto % Million;
      var palabras := (if millones > 1 then GroupWords(millones) else "UN") + " MILLÓN" + (if millones > 1 then "ES" else "");
      assert palabras == m;
      texto := texto + (" " + palabras);
    }
    assert texto == b + Then(m);
    texto := AppendBelowMillion(entero, texto, resto);
  }

  /** The branch from a million: the millions, then the rest. */
  method MillionsText(entero: nat) returns (texto: string)
    requires Million <= entero < Billion
    ensures texto == IntegerWords(entero)
  {
    ghost var b, m, t, u := BillionsPart(entero), MillionsPart(entero), ThousandsPart(entero), UnitsPart(entero);
    Join4(b, m, t, u);
    BillionsStep(entero);
    var millones := entero / Million;
    var resto := entero % Million;
    MillionsStep(entero, entero);
    texto := (if millones > 1 then GroupWords(millones) else "UN") + " MILLÓN" + (if millones > 1 then "ES" else "");
    assert texto == m;
    texto := AppendBelowMillion(entero, texto, resto);
  }

  /** The branch from a thousand: the thousands, then the units when there are any. */
  method ThousandsText(entero: nat) returns (texto: string)
    requires Thousand <= entero < Million
    ensures texto == IntegerWords(entero)
  {
    ghost var b, m, t, u := BillionsPart(entero), MillionsPart(entero), ThousandsPart(entero), UnitsPart(entero);
    Join4(b, m, t, u);
    BillionsStep(entero);
    var miles := entero / Thousand;
    var resto := entero % Thousand;
    MillionsStep(entero, entero);
    ThousandsStep(entero, entero);
    UnitsStep(entero, resto);
    texto := GroupWords(miles) + " MIL";
    if resto > 0 {
      texto := texto + " " + GroupWords(resto);
    }
    assert texto == t + Then(u);
  }

  /**
    The part both long branches of `numero_a_letras` share: the thousands
    and then the units left in `resto`, each after a space.
   */
  method AppendBelowMillion(e: nat, texto: string, resto: nat) returns (r: string)
    requires resto == e % Million
    ensures r == texto + Then(ThousandsPart(e)) + Then(UnitsPart(e))
  {
    r := texto;
    var rest := resto;
    ghost var t, u := ThousandsPart(e), UnitsPart(e);
    ThousandsStep(e, rest);
    if rest > 0 {
      if rest >= Thousand {
        var miles := rest / Thousand;
        rest := rest % Thousand;
        r := r + " " + GroupWords(miles) + " MIL";
      }
      assert r == texto + Then(t);
      UnitsStep(e, rest);
      if rest > 0 {
        r := r + " " + GroupWords(rest);
      }
      assert r == texto + Then(t) + Then(u);
    } else {
      UnitsStep(e, 0);
      assert t == "" && u == "";
    }
  }

  /** The millions the code reads from `resto` are the reference's millions part. */
  lemma MillionsStep(e: nat, resto: nat)
    requires e < Limit && resto == e % Billion
    ensures resto >= Million <==> MillionsPart(e) != ""
    ensures resto >= Million ==>
              var millones := resto / Million;
              MillionsPart(e) == (if millones > 1 then GroupWords(millones) else "UN") + " MILLÓN" + (if millones > 1 then "ES" else "")
    ensures (if resto >= Million then resto % Million else resto) == e % Million
  {
    NestedGroups(e, 1000000);
  }

  /** The thousands the code reads from `resto` are the reference's thousands part. */
  lemma ThousandsStep(e: nat, resto: nat)
    requires resto == e % Million
    ensures resto >= Thousand <==> ThousandsPart(e) != ""
    ensures resto >= Thousand ==> ThousandsPart(e) == GroupWords(resto / Thousand) + " MIL"
    ensures (if resto >= Thousand then resto % Thousand else resto) == e % Thousand
  {
    NestedGroups(e, 1000);
  }

  /** Digits below `1000 * g` read as groups of `g`: the same group and remainder as from the whole number. */
  lemma NestedGroups(e: nat, g: nat)
    requires g == 1000 || g == 1000000
    ensures e % (1000 * g) / g == e / g % 1000
    ensures e % (1000 * g) % g == e % g
  {
    var q, t, r2 := e / (1000 * g), e % (1000 * g) / g, e % (1000 * g) % g;
    assert e % (1000 * g) == g * t + r2;
    assert e == g * (1000 * q + t) + r2;
    assert e / g == 1000 * q + t;
    assert e % g == r2;
  }

  lemma UnitsStep(e: nat, resto: nat)
    requires resto == e % Thousand
    ensures resto > 0 <==> UnitsPart(e) != ""
    ensures UnitsPart(e) == GroupWords(resto)
  {
  }

  lemma BillionsStep(e: nat)
    requires e < Limit
    ensures e >= Billion <==> BillionsPart(e) != ""
    ensures e >= Billion ==> BillionsPart(e) == GroupWords(e / Billion) + " MIL"
    ensures e < Billion ==> e % Billion == e
  {
  }
}
