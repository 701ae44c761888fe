/**
  The handful of Python string operations the calculators rely on:
  `str(n)` of a natural number, `int(s)`, `str.strip()`, `str.lower()`,
  `str.split(sep)`, `str.startswith` and the slice `s[:n]`.
 */
module Text {
  import opened Options

  predicate IsDigit(c: char) {
    '0' <= c <= '9'
  }

  predicate AllDigits(s: string) {
    forall i :: 0 <= i < |s| ==> IsDigit(s[i])
  }

  function DigitChar(d: int): (c: char)
    requires 0 <= d <= 9
    ensures IsDigit(c) && c as int - '0' as int == d
  {
    ['0', '1', '2', '3', '4', '5', '6', '7', '8', '9'][d]
  }

  /** The value of a string of decimal digits ("" reads as 0). */
  function DigitsValue(s: string): (n: nat)
    requires AllDigits(s)
  {
    if |s| == 0 then 0
    else DigitsValue(s[..|s| - 1]) * 10 + (s[|s| - 1] as int - '0' as int)
  }

  /** `str(n)` for a natural number: its decimal digits, no leading zero. */
  function NatToString(n: nat): (s: string)
    ensures |s| >= 1 && AllDigits(s)
    ensures DigitsValue(s) == n
    ensures |s| > 1 ==> s[0] != '0'
    decreases n
  {
    if n < 10 then [DigitChar(n)] else NatToString(n / 10) + [DigitChar(n % 10)]
  }

  lemma NatToStringLength(n: nat)
    ensures n < 10 ==> |NatToString(n)| == 1
    ensures 10 <= n < 100 ==> |NatToString(n)| == 2
    ensures 100 <= n < 1000 ==> |NatToString(n)| == 3
  {
    if n >= 10 {
      NatToStringLength(n / 10);
    }
  }

  /** Reading a concatenation of digit strings: the left part is shifted by the right part's length. */
  lemma {:induction false} DigitsValueAppend(a: string, b: string)
    requires AllDigits(a) && AllDigits(b)
    ensures AllDigits(a + b)
    ensures DigitsValue(a + b) == DigitsValue(a) * Pow10(|b|) + DigitsValue(b)
    decreases |b|
  {
    assert AllDigits(a + b);
    if |b| > 0 {
      var b' := b[..|b| - 1];
      var last := b[|b| - 1] as int - '0' as int;
      assert (a + b)[..|a + b| - 1] == a + b';
      DigitsValueAppend(a, b');
      calc {
        DigitsValue(a + b);
        DigitsValue(a + b') * 10 + last;
        (DigitsValue(a) * Pow10(|b'|) + DigitsValue(b')) * 10 + last;
        { MulAssoc(DigitsValue(a), Pow10(|b'|), 10); }
        DigitsValue(a) * Pow10(|b|) + (DigitsValue(b') * 10 + last);
      }
    } else {
      assert a + b == a;
    }
  }

  lemma MulAssoc(x: int, y: int, z: int)
    ensures (x * y) * z == x * (z * y)
  {
  }

  function Pow10(k: nat): (p: nat)
    ensures p >= 1
  {
    if k == 0 then 1 else 10 * Pow10(k - 1)
  }

  /** `c.lower()` on ASCII letters (other characters are left as they are). */
  function LowerChar(c: char): char {
    if 'A' <= c <= 'Z' then (c as int - 'A' as int + 'a' as int) as char else c
  }

  function Lower(s: string): (r: string)
    ensures |r| == |s|
    ensures forall i :: 0 <= i < |s| ==> r[i] == LowerChar(s[i])
  {
    if |s| == 0 then [] else [LowerChar(s[0])] + Lower(s[1..])
  }

  /** The ASCII whitespace `str.strip()` removes. */
  predicate IsSpace(c: char) {
    c == ' ' || c == '\t' || c == '\n' || c == '\r' || c == '\U{000B}' || c == '\U{000C}'
  }

  function StripLeft(s: string): (r: string)
    ensures |r| <= |s|
    ensures |r| > 0 ==> !IsSpace(r[0])
  {
    if |s| > 0 && IsSpace(s[0]) then StripLeft(s[1..]) else s
  }

  function StripRight(s: string): (r: string)
    ensures |r| <= |s|
    ensures |r| > 0 ==> !IsSpace(r[|r| - 1])
    ensures |s| > 0 && !IsSpace(s[0]) ==> |r| > 0 && r[0] == s[0]
  {
    if |s| > 0 && IsSpace(s[|s| - 1]) then StripRight(s[..|s| - 1]) else s
  }

  /** Stripping removes whitespace only: everything in front of what is left, and after it, is a space. */
  lemma {:induction false} StripLeftRemovesSpace(s: string)
    ensures StripLeft(s) == s[|s| - |StripLeft(s)|..]
    ensures forall i :: 0 <= i < |s| - |StripLeft(s)| ==> IsSpace(s[i])
  {
    if |s| > 0 && IsSpace(s[0]) {
      StripLeftRemovesSpace(s[1..]);
    }
  }

  lemma {:induction false} StripRightRemovesSpace(s: string)
    ensures StripRight(s) == s[..|StripRight(s)|]
    ensures forall i :: |StripRight(s)| <= i < |s| ==> IsSpace(s[i])
  {
    if |s| > 0 && IsSpace(s[|s| - 1]) {
      StripRightRemovesSpace(s[..|s| - 1]);
    }
  }

  /** `s.strip()`. */
  function Strip(s: string): (r: string)
    ensures |r| > 0 ==> !IsSpace(r[0]) && !IsSpace(r[|r| - 1])
  {
    StripRight(StripLeft(s))
  }

  /** `s[:n]`: Python slicing never fails, it stops at the end. */
  function Take(s: string, n: nat): (r: string)
    ensures |r| == if |s| < n then |s| else n
    ensures r <= s
  {
    if |s| < n then s else s[..n]
  }

  /** `s.startswith(prefix)`. */
  predicate StartsWith(s: string, prefix: string) {
    prefix <= s
  }

  /** `s.replace(old, new)` for single characters. */
  function ReplaceChar(s: string, from: char, to: char): (r: string)
    ensures |r| == |s|
    ensures forall i :: 0 <= i < |s| ==> r[i] == (if s[i] == from then to else s[i])
  {
    if |s| == 0 then [] else [if s[0] == from then to else s[0]] + ReplaceChar(s[1..], from, to)
  }

  /** `s.split(sep)` for a one-character separator. */
  function Split(s: string, sep: char): (parts: seq<string>)
    ensures |parts| >= 1
    ensures forall k :: 0 <= k < |parts| ==> sep !in parts[k]
    ensures |s| > 0 && s[0] != sep ==> |parts[0]| > 0 && parts[0][0] == s[0]
  {
    if |s| == 0 then [""]
    else
      var rest := Split(s[1..], sep);
      if s[0] == sep then [""] + rest else [[s[0]] + rest[0]] + rest[1..]
  }

  /** `sep.join(parts)`. */
  function Join(parts: seq<string>, sep: char): string
    requires |parts| >= 1
  {
    if |parts| == 1 then parts[0] else parts[0] + [sep] + Join(parts[1..], sep)
  }

  /** Splitting loses nothing: joining the pieces back gives the original string. */
  lemma {:induction false} SplitJoin(s: string, sep: char)
    ensures Join(Split(s, sep), sep) == s
  {
    if |s| > 0 {
      var rest := Split(s[1..], sep);
      SplitJoin(s[1..], sep);
      if s[0] != sep {
        var parts := [[s[0]] + rest[0]] + rest[1..];
        if |rest| == 1 {
          assert parts == [[s[0]] + rest[0]];
        } else {
          assert parts[1..] == rest[1..];
          assert Join(rest, sep) == rest[0] + [sep] + Join(rest[1..], sep);
        }
        assert s == [s[0]] + s[1..];
      } else {
        assert ([""] + rest)[1..] == rest;
        assert s == [s[0]] + s[1..];
      }
    }
  }

  /** A string without the separator is a single piece. */
  lemma {:induction false} SplitAbsent(s: string, sep: char)
    requires sep !in s
    ensures Split(s, sep) == [s]
  {
    if |s| > 0 {
      SplitAbsent(s[1..], sep);
      assert s == [s[0]] + s[1..];
    }
  }

  /** One separator between two separator-free strings gives exactly those two pieces. */
  lemma {:induction false} SplitPair(a: string, b: string, sep: char)
    requires sep !in a && sep !in b
    ensures Split(a + [sep] + b, sep) == [a, b]
  {
    var s := a + [sep] + b;
    if |a| == 0 {
      assert s == [sep] + b && s[1..] == b;
      SplitAbsent(b, sep);
    } else {
      assert s[1..] == a[1..] + [sep] + b;
      SplitPair(a[1..], b, sep);
      assert [a[0]] + a[1..] == a;
    }
  }

  /** Replacing a character that does not occur changes nothing. */
  lemma ReplaceAbsent(s: string, from: char, to: char)
    requires from !in s
    ensures ReplaceChar(s, from, to) == s
  {
    var r := ReplaceChar(s, from, to);
    assert forall i :: 0 <= i < |s| ==> r[i] == s[i];
  }

  /** The number of occurrences of `c` in `s`. */
  function Count(s: string, c: char): nat {
    if |s| == 0 then 0 else (if s[0] == c then 1 else 0) + Count(s[1..], c)
  }

  /** Splitting on a separator that occurs `n` times gives `n + 1` pieces. */
  lemma {:induction false} SplitLength(s: string, sep: char)
    ensures |Split(s, sep)| == Count(s, sep) + 1
  {
    if |s| > 0 {
      SplitLength(s[1..], sep);
    }
  }

  /** The text after a leading '+' or '-'. */
  function Unsigned(t: string): (r: string)
    ensures |r| <= |t|
  {
    if |t| > 0 && (t[0] == '-' || t[0] == '+') then t[1..] else t
  }

  predicate Negative(t: string) {
    |t| > 0 && t[0] == '-'
  }

  /** The absolute value of an integer. */
  function Magnitude(n: int): nat {
    if n < 0 then -n else n
  }

  function Signed(negative: bool, n: nat): int {
    if negative then -(n as int) else n
  }

  /**
    `int(s)` on text: surrounding whitespace, an optional sign, then one or
    more ASCII digits; anything else raises ValueError, modelled as None.
   */
  function ParseInt(s: string): (r: Option<int>)
    ensures r.Some? <==> |Unsigned(Strip(s))| >= 1 && AllDigits(Unsigned(Strip(s)))
    ensures r.Some? ==> Magnitude(r.value) == DigitsValue(Unsigned(Strip(s)))
    ensures r.Some? && r.value < 0 ==> Negative(Strip(s))
    ensures r.Some? && Negative(Strip(s)) ==> r.value <= 0
  {
    var t := Strip(s);
    var body := Unsigned(t);
    if |body| >= 1 && AllDigits(body) then Some(Signed(Negative(t), DigitsValue(body))) else None
  }

  /** `int()` reads back what `str()` writes, for natural numbers and negative ones alike. */
  lemma ParseIntOfString(n: int)
    ensures n >= 0 ==> ParseInt(NatToString(n)) == Some(n)
    ensures n < 0 ==> ParseInt("-" + NatToString(-n)) == Some(n)
  {
    if n >= 0 {
      var t := NatToString(n);
      DigitsNoSpace(t);
      StripOfUnspaced(t);
      assert Unsigned(t) == t;
    } else {
      var d := NatToString(-n);
      var t := "-" + d;
      DigitsNoSpace(d);
      NoSpaceAppend("-", d);
      StripOfUnspaced(t);
      assert Unsigned(t) == d;
    }
  }

  predicate NoSpace(s: string) {
    forall i :: 0 <= i < |s| ==> !IsSpace(s[i])
  }

  lemma DigitsNoSpace(s: string)
    requires AllDigits(s)
    ensures NoSpace(s)
  {
  }

  lemma NoSpaceAppend(a: string, b: string)
    requires NoSpace(a) && NoSpace(b)
    ensures NoSpace(a + b)
  {
    assert forall i :: 0 <= i < |a + b| ==> (a + b)[i] == if i < |a| then a[i] else b[i - |a|];
  }

  lemma StripOfUnspaced(s: string)
    requires NoSpace(s)
    ensures Strip(s) == s
  {
    assert StripLeft(s) == s;
    if |s| > 0 {
      assert !IsSpace(s[|s| - 1]);
    }
  }

  /**
    The integer part `float()` reads from unsigned text: digits with at
    most one point and at least one digit somewhere ("7", "7.", ".5", "7.25").
   */
  function DecimalWhole(body: string): (r: Option<nat>)
  {
    var parts := Split(body, '.');
    if |parts| == 1 && |parts[0]| >= 1 && AllDigits(parts[0]) then Some(DigitsValue(parts[0]))
    else if |parts| == 2 && AllDigits(parts[0]) && AllDigits(parts[1]) && |parts[0]| + |parts[1]| >= 1 then
      Some(DigitsValue(parts[0]))
    else None
  }

  /**
    `int(float(s))` for the decimal forms `float` accepts: an optional
    sign, then a decimal as `DecimalWhole` reads it, truncated toward zero.
    Anything else raises ValueError, modelled as None.
   */
  function ParseFloatTrunc(s: string): (r: Option<int>)
    ensures r.Some? <==> DecimalWhole(Unsigned(Strip(s))).Some?
    ensures r.Some? ==> Magnitude(r.value) == DecimalWhole(Unsigned(Strip(s))).value
    ensures r.Some? && r.value < 0 ==> Negative(Strip(s))
    ensures r.Some? && Negative(Strip(s)) ==> r.value <= 0
  {
    var t := Strip(s);
    var w := DecimalWhole(Unsigned(t));
    if w.Some? then Some(Signed(Negative(t), w.value)) else None
  }

  /** Whatever `int()` accepts, `int(float())` reads as the same number. */
  lemma ParseIntTruncates(s: string)
    requires ParseInt(s).Some?
    ensures ParseFloatTrunc(s) == ParseInt(s)
  {
    var body := Unsigned(Strip(s));
    assert '.' !in body;
    SplitAbsent(body, '.');
  }

  /** `int(float())` keeps the integer digits of a decimal and drops its fraction. */
  lemma ParseFloatTruncDecimal(whole: string, fraction: string)
    requires |whole| >= 1 && AllDigits(whole) && AllDigits(fraction)
    ensures ParseFloatTrunc(whole + "." + fraction) == Some(DigitsValue(whole) as int)
  {
    DecimalPlain(whole, fraction);
    DecimalWholeOfPair(whole, fraction);
  }

  /** A decimal written with digits only has no spaces to strip and no sign. */
  lemma DecimalPlain(whole: string, fraction: string)
    requires |whole| >= 1 && AllDigits(whole) && AllDigits(fraction)
    ensures var body := whole + "." + fraction;
            Strip(body) == body && Unsigned(body) == body && !Negative(body)
  {
    var body := whole + "." + fraction;
    DigitsNoSpace(whole);
    DigitsNoSpace(fraction);
    NoSpaceAppend(whole, ".");
    NoSpaceAppend(whole + ".", fraction);
    StripOfUnspaced(body);
    assert body[0] == whole[0];
  }

  lemma DecimalWholeOfPair(whole: string, fraction: string)
    requires |whole| >= 1 && AllDigits(whole) && AllDigits(fraction)
    ensures DecimalWhole(whole + "." + fraction) == Some(DigitsValue(whole))
  {
    assert '.' !in whole && '.' !in fraction;
    SplitPair(whole, fraction, '.');
  }

  /** Text that begins with a letter is not a number to `float()`. */
  lemma LetterNotNumber(v: string)
    requires |v| > 0 && 'a' <= v[0] <= 'z'
    ensures ParseFloatTrunc(v) == None
  {
    assert StripLeft(v) == v;
    var t := Strip(v);
    assert |t| > 0 && t[0] == v[0];
    assert Unsigned(t) == t;
    var parts := Split(t, '.');
    assert !IsDigit(parts[0][0]);
  }
}
