/**
  `redondear` (apps/calculadora_lrt.py) and every `quantize(Decimal('0.01'),
  rounding=ROUND_HALF_UP)` of the three calculators: rounding an exact decimal
  to whole cents, with ties going away from zero.
 */
module Rounding {

  /** `x` is a whole number of cents. */
  predicate IsCents(x: real) {
    (x * 100.0).Floor as real == x * 100.0
  }

  /** The number of cents ROUND_HALF_UP picks for `x`. */
  function HalfUpCents(x: real): int {
    if x >= 0.0 then (x * 100.0 + 0.5).Floor else -((-x * 100.0 + 0.5).Floor)
  }

  /**
    The rounded value is a whole number of cents at most half a cent away
    from `x`; a tie (exactly half a cent away) is resolved away from zero.
    The two half-open windows pin the result down: each holds exactly one
    whole number of cents (lemma Round2Unique).
   */
  function Round2(x: real): (r: real)
    ensures IsCents(r)
    ensures x >= 0.0 ==> -0.005 < r - x <= 0.005
    ensures x < 0.0 ==> -0.005 <= r - x < 0.005
  {
    HalfUpCents(x) as real / 100.0
  }

  /** Whichever way it rounds, the result is within half a cent. */
  lemma Round2Near(x: real)
    ensures -0.005 <= Round2(x) - x <= 0.005
  {
  }

  lemma CentsFromInt(c: int)
    ensures IsCents(c as real / 100.0)
  {
  }

  /** Sums and differences of whole cents are whole cents. */
  lemma CentsAdd(a: real, b: real)
    requires IsCents(a) && IsCents(b)
    ensures IsCents(a + b) && IsCents(a - b)
  {
    var ca, cb := (a * 100.0).Floor, (b * 100.0).Floor;
    assert a * 100.0 == ca as real && b * 100.0 == cb as real;
    CentsOfWhole(a + b, ca + cb);
    CentsOfWhole(a - b, ca - cb);
  }

  /** A value whose hundredfold is a whole number is whole cents. */
  lemma CentsOfWhole(x: real, n: int)
    requires x * 100.0 == n as real
    ensures IsCents(x)
  {
    assert (x * 100.0).Floor == n;
  }

  lemma CentsNeg(a: real)
    requires IsCents(a)
    ensures IsCents(-a)
  {
    var ca := (a * 100.0).Floor;
    assert -a * 100.0 == (-ca) as real;
  }

  lemma CentsInt(n: int)
    ensures IsCents(n as real)
  {
    assert (n as real) * 100.0 == (n * 100) as real;
  }

  /** Two whole numbers of cents less than one cent apart are equal. */
  lemma {:induction false} CentsGap(a: real, b: real)
    requires IsCents(a) && IsCents(b)
    requires -0.01 < a - b < 0.01
    ensures a == b
  {
    var ca, cb := (a * 100.0).Floor, (b * 100.0).Floor;
    assert (ca - cb) as real == (a - b) * 100.0;
    assert -1 < ca - cb < 1;
  }

  /** Any whole number of cents in the rounding window of `x` is `Round2(x)`. */
  lemma {:induction false} Round2Unique(x: real, c: real)
    requires IsCents(c)
    requires x >= 0.0 ==> -0.005 < c - x <= 0.005
    requires x < 0.0 ==> -0.005 <= c - x < 0.005
    ensures c == Round2(x)
  {
    CentsGap(c, Round2(x));
  }

  /** Rounding a value that is already rounded changes nothing. */
  lemma {:induction false} Round2Idempotent(x: real)
    requires IsCents(x)
    ensures Round2(x) == x
  {
    Round2Unique(x, x);
  }

  lemma {:induction false} Round2Twice(x: real)
    ensures Round2(Round2(x)) == Round2(x)
  {
    Round2Idempotent(Round2(x));
  }

  /** Half-up rounding is symmetric about zero (it is not "round half toward +infinity"). */
  lemma {:induction false} Round2Negate(x: real)
    ensures Round2(-x) == -Round2(x)
  {
    CentsNeg(Round2(x));
    if x == 0.0 {
      Round2Idempotent(0.0);
    } else {
      Round2Unique(-x, -Round2(x));
    }
  }

  /** Rounding preserves order. */
  lemma {:induction false} Round2Monotone(x: real, y: real)
    requires x <= y
    ensures Round2(x) <= Round2(y)
  {
    if x >= 0.0 {
      FloorMonotone(x * 100.0 + 0.5, y * 100.0 + 0.5);
    } else if y < 0.0 {
      FloorMonotone(-y * 100.0 + 0.5, -x * 100.0 + 0.5);
    }
    assert HalfUpCents(x) <= HalfUpCents(y);
  }

  lemma FloorMonotone(a: real, b: real)
    requires a <= b
    ensures a.Floor <= b.Floor
  {
  }

  /** A sum of whole cents needs no further rounding. */
  lemma {:induction false} Round2OfCentsSum(a: real, b: real)
    requires IsCents(a) && IsCents(b)
    ensures Round2(a + b) == a + b
  {
    CentsAdd(a, b);
    Round2Idempotent(a + b);
  }

  /** Rounding each term and then adding is not the same as adding and then rounding. */
  lemma RoundingOrderMatters()
    ensures Round2(0.005) + Round2(0.005) != Round2(0.005 + 0.005)
  {
    Round2Unique(0.005, 0.01);
    Round2Unique(0.01, 0.01);
  }
}
