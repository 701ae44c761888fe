/**
  `formatear_moneda` (apps/ibm.py): an amount rounded half-up to cents and
  written the Argentine way, "$1.234.567,89", by formatting it the English
  way (`f"{d:,.2f}"`) and then swapping the two separators.
 */
module Currency {
  import opened Options
  import opened Text
  import opened Rounding

  /** `f"{n:02d}"` for `n < 100`. */
  function Pad2(n: nat): (s: string)
    requires n < 100
    ensures |s| == 2 && AllDigits(s) && DigitsValue(s) == n
  {
    NatToStringLength(n);
    if n < 10 then DigitsValueAppend("0", NatToString(n)); "0" + NatToString(n)
    else NatToString(n)
  }

  /** `f"{n:03d}"` for `n < 1000`. */
  function Pad3(n: nat): (s: string)
    requires n < 1000
    ensures |s| == 3 && AllDigits(s) && DigitsValue(s) == n
  {
    NatToStringLength(n);
    if n < 10 then DigitsValueAppend("00", NatToString(n)); "00" + NatToString(n)
    else if n < 100 then DigitsValueAppend("0", NatToString(n)); "0" + NatToString(n)
    else NatToString(n)
  }

  /** The digits of `n` in groups of three, `sep` between groups (the `,` of the `,` format option). */
  function Grouped(n: nat, sep: char): (s: string)
    requires !IsDigit(sep)
    ensures |s| >= 1 && IsDigit(s[0])
    decreases n
  {
    if n < 1000 then NatToString(n) else Grouped(n / 1000, sep) + [sep] + Pad3(n % 1000)
  }

  /** The whole number of cents of an amount that is a whole number of cents. */
  function CentsOf(x: real): int {
    (x * 100.0).Floor
  }

  /**
    `f"{d:,.2f}"` of a Decimal `d` of `a` cents in magnitude; `negative` is
    the sign of `d`, which `quantize` keeps even when it rounds to zero.
   */
  function EnglishText(negative: bool, a: nat): string {
    (if negative then "-" else "") + Grouped(a / 100, ',') + "." + Pad2(a % 100)
  }

  /** `.replace(",", "X").replace(".", ",").replace("X", ".")`. */
  function SwapSeparators(s: string): string {
    ReplaceChar(ReplaceChar(ReplaceChar(s, ',', 'X'), '.', ','), 'X', '.')
  }

  /**
    `formatear_moneda(valor)`; `None` stands for Python's `None`. The amount
    is rounded half-up to cents and printed with its own sign, so that an
    amount in (-0.005, 0) prints as "$-0,00". The result is the Argentine
    form directly: "." between groups of thousands, "," before the cents.
   */
  function FormatCurrency(v: Option<real>): (r: string)
    ensures v.None? ==> r == "$0,00"
    ensures v.Some? ==> r == "$" + ArgentineText(v.value < 0.0, Magnitude(CentsOf(Round2(v.value))))
  {
    match v
    case None => "$0,00"
    case Some(x) =>
      var neg, a := x < 0.0, Magnitude(CentsOf(Round2(x)));
      EnglishToArgentine(neg, a);
      "$" + SwapSeparators(EnglishText(neg, a))
  }

  /** Drops every `c` from `s`. */
  function Remove(s: string, c: char): (r: string)
    ensures |r| <= |s|
  {
    if |s| == 0 then [] else (if s[0] == c then [] else [s[0]]) + Remove(s[1..], c)
  }

  /**
    Reads an amount written as `formatear_moneda` writes it: "$", an optional
    "-", digits with "." between groups, ",", two digits.
   */
  function ParseCurrency(s: string): Option<real> {
    if |s| < 5 || s[0] != '$' || s[|s| - 3] != ',' then None
    else ParseAmount(s[1..|s| - 3], s[|s| - 2..])
  }

  /** The amount between the "$" and the "," and its two cents digits. */
  function ParseAmount(body: string, frac: string): Option<real> {
    var neg := |body| > 0 && body[0] == '-';
    var digits := Remove(if neg then body[1..] else body, '.');
    if |digits| == 0 || !AllDigits(digits) || !AllDigits(frac) then None
    else
      var magnitude := DigitsValue(digits) as real + DigitsValue(frac) as real / 100.0;
      Some(if neg then -magnitude else magnitude)
  }

  /** A small negative amount keeps its sign although it rounds to zero cents. */
  lemma NegativeZeroShown()
    ensures FormatCurrency(Some(-0.001)) == "$-0,00"
  {
    CentsInt(0);
    Round2Unique(-0.001, 0.0);
    assert NatToString(0) == "0";
  }

  lemma {:induction false} EnglishToArgentine(negative: bool, a: nat)
    ensures SwapSeparators(EnglishText(negative, a)) == ArgentineText(negative, a)
  {
    var sign := if negative then "-" else "";
    var g := Grouped(a / 100, ',');
    var p := Pad2(a % 100);
    assert EnglishText(negative, a) == sign + g + "." + p;
    GroupedNoLetters(a / 100, ',');
    assert 'X' !in sign + g + "." + p;
    ChainIsSwap(sign + g + "." + p);
    SwapAllAppend(sign + g + ".", p);
    SwapAllAppend(sign + g, ".");
    SwapAllAppend(sign, g);
    GroupedSwap(a / 100);
    SwapAllDigits(p);
    assert SwapAll(".") == ",";
    assert SwapAll(sign) == sign;
  }

  /** A sign, then `a` cents written with "." between groups and "," before the cents. */
  function ArgentineText(negative: bool, a: nat): string {
    (if negative then "-" else "") + Grouped(a / 100, '.') + "," + Pad2(a % 100)
  }

  /** The replace chain `,`->`X`, `.`->`,`, `X`->`.` swaps the two separators. */
  function Swap(ch: char): char {
    if ch == ',' then '.' else if ch == '.' then ',' else ch
  }

  function SwapAll(s: string): (r: string)
    ensures |r| == |s|
    ensures forall i :: 0 <= i < |s| ==> r[i] == Swap(s[i])
  {
    if |s| == 0 then [] else [Swap(s[0])] + SwapAll(s[1..])
  }

  lemma SwapAllAppend(a: string, b: string)
    ensures SwapAll(a + b) == SwapAll(a) + SwapAll(b)
  {
  }

  lemma SwapAllDigits(s: string)
    requires AllDigits(s)
    ensures SwapAll(s) == s
  {
  }

  lemma ChainIsSwap(s: string)
    requires 'X' !in s
    ensures SwapSeparators(s) == SwapAll(s)
  {
  }

  lemma {:induction false} GroupedNoLetters(n: nat, sep: char)
    requires !IsDigit(sep) && sep != 'X'
    ensures 'X' !in Grouped(n, sep)
    decreases n
  {
    if n >= 1000 {
      GroupedNoLetters(n / 1000, sep);
      assert 'X' !in Pad3(n % 1000);
    } else {
      assert AllDigits(NatToString(n));
    }
  }

  /** Writing with "," between groups and swapping gives the form with "." between groups. */
  lemma {:induction false} GroupedSwap(n: nat)
    ensures SwapAll(Grouped(n, ',')) == Grouped(n, '.')
    decreases n
  {
    if n >= 1000 {
      GroupedSwap(n / 1000);
      var g := Grouped(n / 1000, ',');
      var p := Pad3(n % 1000);
      SwapAllAppend(g + [','], p);
      SwapAllAppend(g, [',']);
      SwapAllDigits(p);
    } else {
      SwapAllDigits(NatToString(n));
    }
  }

  /** Removing the group separators leaves the plain digits of `n`. */
  lemma {:induction false} GroupedDigits(n: nat)
    ensures AllDigits(Remove(Grouped(n, '.'), '.'))
    ensures |Remove(Grouped(n, '.'), '.')| >= 1
    ensures DigitsValue(Remove(Grouped(n, '.'), '.')) == n
    decreases n
  {
    if n < 1000 {
      RemoveAbsent(NatToString(n), '.');
    } else {
      GroupedDigits(n / 1000);
      AppendGroup(Grouped(n / 1000, '.'), n / 1000, n % 1000);
    }
  }

  /** One more group of three digits after a "." multiplies by a thousand and adds the group. */
  lemma AppendGroup(g: string, q: nat, r: nat)
    requires r < 1000
    requires AllDigits(Remove(g, '.')) && |Remove(g, '.')| >= 1 && DigitsValue(Remove(g, '.')) == q
    ensures AllDigits(Remove(g + ['.'] + Pad3(r), '.'))
    ensures |Remove(g + ['.'] + Pad3(r), '.')| >= 1
    ensures DigitsValue(Remove(g + ['.'] + Pad3(r), '.')) == q * 1000 + r
  {
    var p := Pad3(r);
    RemoveAppend(g + ['.'], p, '.');
    RemoveAppend(g, ['.'], '.');
    RemoveAbsent(p, '.');
    assert Remove(['.'], '.') == [];
    assert Remove(g + ['.'] + p, '.') == Remove(g, '.') + p;
    DigitsValueAppend(Remove(g, '.'), p);
    assert Pow10(3) == 1000;
  }

  lemma RemoveAbsent(s: string, c: char)
    requires AllDigits(s) && !IsDigit(c)
    ensures Remove(s, c) == s
  {
  }

  lemma {:induction false} RemoveAppend(a: string, b: string, c: char)
    ensures Remove(a + b, c) == Remove(a, c) + Remove(b, c)
  {
    if |a| > 0 {
      assert (a + b)[1..] == a[1..] + b;
      RemoveAppend(a[1..], b, c);
    } else {
      assert a + b == b;
    }
  }

  /** Parsing the formatted text gives back the rounded amount. */
  lemma {:induction false} FormatParseRoundTrip(x: real)
    ensures ParseCurrency(FormatCurrency(Some(x))) == Some(Round2(x))
  {
    ParseRounded(x);
  }

  /** The rounded amount, written with the sign of `x`, reads back as itself. */
  lemma ParseRounded(x: real)
    ensures ParseCurrency("$" + ArgentineText(x < 0.0, Magnitude(CentsOf(Round2(x))))) == Some(Round2(x))
  {
    var r := Round2(x);
    var c := CentsOf(r);
    ParseMagnitude(x < 0.0, Magnitude(c));
    CentsOfCents(r);
    RoundedSign(x);
    if x < 0.0 {
      assert c <= 0;
    } else {
      assert c >= 0;
    }
  }

  /** Rounding never crosses zero. */
  lemma RoundedSign(x: real)
    ensures x < 0.0 ==> Round2(x) <= 0.0
    ensures x >= 0.0 ==> Round2(x) >= 0.0
  {
    CentsInt(0);
    Round2Idempotent(0.0);
    if x < 0.0 {
      Round2Monotone(x, 0.0);
    } else {
      Round2Monotone(0.0, x);
    }
  }

  lemma CentsOfCents(r: real)
    requires IsCents(r)
    ensures CentsOf(r) as real / 100.0 == r
  {
    assert CentsOf(r) as real == r * 100.0;
  }

  /** A sign and `a` cents, written the Argentine way, read back as the signed amount. */
  lemma ParseMagnitude(neg: bool, a: nat)
    ensures var m := a as real / 100.0;
            ParseCurrency("$" + ArgentineText(neg, a)) == Some(if neg then -m else m)
  {
    var body := (if neg then "-" else "") + Grouped(a / 100, '.');
    var p := Pad2(a % 100);
    AmountOfCents(neg, a);
    CurrencyFrame(body, p);
  }

  /** The part between "$" and "," and the two cents digits read back as `a` cents. */
  lemma AmountOfCents(neg: bool, a: nat)
    ensures var m := a as real / 100.0;
            ParseAmount((if neg then "-" else "") + Grouped(a / 100, '.'), Pad2(a % 100)) == Some(if neg then -m else m)
  {
    var g := Grouped(a / 100, '.');
    var p := Pad2(a % 100);
    GroupedDigits(a / 100);
    ParseParts(neg, g, p);
    CentsSplit(a);
    var m := DigitsValue(Remove(g, '.')) as real + DigitsValue(p) as real / 100.0;
    assert m == a as real / 100.0;
  }

  lemma CentsSplit(a: nat)
    ensures (a / 100) as real + (a % 100) as real / 100.0 == a as real / 100.0
  {
    assert a == (a / 100) * 100 + a % 100;
  }

  lemma ParseParts(neg: bool, g: string, p: string)
    requires |g| >= 1 && IsDigit(g[0])
    requires |Remove(g, '.')| >= 1 && AllDigits(Remove(g, '.'))
    requires |p| == 2 && AllDigits(p)
    ensures var sign := if neg then "-" else "";
            var m := DigitsValue(Remove(g, '.')) as real + DigitsValue(p) as real / 100.0;
            ParseAmount(sign + g, p) == Some(if neg then -m else m)
  {
    var sign := if neg then "-" else "";
    var body := sign + g;
    if neg {
      assert body[1..] == g;
    } else {
      assert body == g;
    }
  }

  /** Text of the form "$", body, ",", two characters, is read by `ParseAmount` on the body and those two. */
  lemma CurrencyFrame(body: string, p: string)
    requires |body| >= 1 && |p| == 2
    ensures ParseCurrency("$" + (body + "," + p)) == ParseAmount(body, p)
  {
    var s := "$" + (body + "," + p);
    assert s == ("$" + body) + ("," + p);
    assert s[..|s| - 3] == "$" + body;
    assert s[1..|s| - 3] == (s[..|s| - 3])[1..];
    assert s[1..|s| - 3] == body;
    assert s[|s| - 3] == ',';
    assert s[|s| - 2..] == p;
  }
}
