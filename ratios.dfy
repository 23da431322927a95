/** Percentages of a part in a whole, shared by the progress, quiz and
    report computations. */
module Ratios {
  /** `part / whole` for 0 <= part <= whole lies in [0, 1], and reaches
      either end only at that end. */
  lemma Fraction(part: real, whole: real)
    requires 0.0 < whole && 0.0 <= part <= whole
    ensures 0.0 <= part / whole <= 1.0
    ensures part / whole == 0.0 <==> part == 0.0
    ensures part / whole == 1.0 <==> part == whole
  {
  }

  /** `(n / d) * 100` for 0 <= n <= d lies in [0, 100]; it is 0 exactly
      when n is, and 100 exactly when n == d. */
  lemma Percent(n: nat, d: nat)
    requires 0 < d && n <= d
    ensures 0.0 <= (n as real / d as real) * 100.0 <= 100.0
    ensures (n as real / d as real) * 100.0 == 0.0 <==> n == 0
    ensures (n as real / d as real) * 100.0 == 100.0 <==> n == d
  {
    Fraction(n as real, d as real);
  }
}
