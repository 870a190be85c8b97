/** Facts about exact fractions that the percentage computations rest on. */
module Fractions {

  /** A part `a` of a positive whole `n`, as a fraction of it. */
  lemma Fraction(a: nat, n: nat)
    requires 0 < a <= n
    ensures 0.0 < a as real / n as real <= 1.0
  {
  }

  lemma ZeroFraction(n: nat)
    requires 0 < n
    ensures 0 as real / n as real == 0.0
  {
  }

  /** A fraction of a positive whole is 1 exactly when the part is the whole. */
  lemma WholeFraction(a: nat, n: nat)
    requires 0 < n
    ensures a as real / n as real == 1.0 <==> a == n
  {
    if a as real / n as real == 1.0 {
      assert a as real == (a as real / n as real) * n as real;
    }
  }

  /** Percentages of one whole add up like the parts do. */
  lemma AddPercentages(a: nat, b: nat, n: nat)
    requires 0 < n
    ensures a as real / n as real * 100.0 + b as real / n as real * 100.0 == (a + b) as real / n as real * 100.0
  {
  }
}
