/** Facts about products of reals that the proofs about amounts and rates need. */
module RealArith {

  lemma MulMonotone(a: real, b: real, k: real)
    requires a <= b && k >= 0.0
    ensures a * k <= b * k
  {
  }

  lemma MulNonNegative(a: real, b: real)
    requires a >= 0.0 && b >= 0.0
    ensures a * b >= 0.0
  {
  }

  /** A product with a positive factor that is not negative has a non-negative other factor. */
  lemma FactorSign(x: real, a: real)
    requires a > 0.0 && x * a >= 0.0
    ensures x >= 0.0
  {
  }
}
