/** Facts about products of reals, each proved on its own so that the proofs that use
    them stay linear. */
module RealArith {

  function Abs(x: real): (r: real)
    ensures r >= 0.0 && (r == x || r == -x)
  {
    if x < 0.0 then -x else x
  }

  lemma MulNonneg(a: real, b: real)
    requires 0.0 <= a && 0.0 <= b
    ensures 0.0 <= a * b
  {
  }

  lemma MulMonotone(a: real, b: real, c: real)
    requires a <= b && 0.0 <= c
    ensures a * c <= b * c
  {
    MulNonneg(b - a, c);
    assert (b - a) * c == b * c - a * c;
  }

  /** A fraction of a non-negative amount lies between zero and that amount. */
  lemma FractionOf(f: real, x: real)
    requires 0.0 <= f <= 1.0 && 0.0 <= x
    ensures 0.0 <= f * x <= x
  {
    MulNonneg(f, x);
    MulNonneg(1.0 - f, x);
    assert (1.0 - f) * x == x - f * x;
  }

  lemma SquarePositive(d: real)
    ensures d * d >= 0.0
    ensures d != 0.0 ==> d * d > 0.0
  {
    if d > 0.0 {
      MulMonotone(0.0, d, d);
      assert d * d != 0.0;
    } else if d < 0.0 {
      MulMonotone(0.0, -d, -d);
      assert (-d) * (-d) == d * d;
    }
  }

  /** `part / whole * 100`: the share of a positive whole, in percent. */
  function Percentage(part: nat, whole: nat): real
    requires whole > 0
  {
    part as real / whole as real * 100.0
  }

  /** A part of a positive whole, as a percentage, lies in [0, 100], is positive when the
      part is, and scales back to the part. */
  lemma PercentOf(part: nat, whole: nat)
    requires part <= whole && whole > 0
    ensures 0.0 <= Percentage(part, whole) <= 100.0
    ensures 0 < part ==> 0.0 < Percentage(part, whole)
    ensures Percentage(part, whole) * whole as real == part as real * 100.0
  {
    var f := part as real / whole as real;
    assert f * whole as real == part as real;
    if f > 1.0 {
      MulMonotone(1.0, f, whole as real);
    }
    if f < 0.0 {
      MulMonotone(f, 0.0, whole as real);
    }
    assert Percentage(part, whole) * whole as real == (f * whole as real) * 100.0;
  }

  lemma DivAbs(d: real, s: real)
    requires 0.0 < s
    ensures Abs(d / s) == Abs(d) / s
  {
    if d < 0.0 {
      assert (-d) / s == -(d / s);
    }
  }

  lemma DivGreater(a: real, s: real, t: real)
    requires 0.0 < s
    ensures a / s > t <==> a > t * s
  {
    var q := a / s;
    assert q * s == a;
    if q > t {
      MulMonotone(t, q, s);
      assert (q - t) * s > 0.0 by {
        MulPositive(q - t, s);
      }
    } else {
      MulMonotone(q, t, s);
    }
  }

  lemma DivAtLeast(a: real, s: real, t: real)
    requires 0.0 < s
    ensures a / s >= t <==> a >= t * s
  {
    var q := a / s;
    assert q * s == a;
    if q >= t {
      MulMonotone(t, q, s);
    } else {
      MulPositive(t - q, s);
      assert (t - q) * s == t * s - q * s;
    }
  }

  lemma MulPositive(a: real, b: real)
    requires 0.0 < a && 0.0 < b
    ensures 0.0 < a * b
  {
  }

  /** Squaring preserves the order of non-negative reals. */
  lemma SquareGreater(a: real, b: real)
    requires 0.0 <= a && 0.0 <= b
    ensures a > b <==> a * a > b * b
  {
    if a > b {
      MulPositive(a - b, a);
      MulNonneg(a - b, b);
      assert (a - b) * a == a * a - b * a;
      assert (a - b) * b == a * b - b * b;
    } else {
      MulNonneg(b - a, a);
      MulNonneg(b - a, b);
      assert (b - a) * a == b * a - a * a;
      assert (b - a) * b == b * b - a * b;
    }
  }
}
