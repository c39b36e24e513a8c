/** Exact powers with a natural exponent and the geometric sums that the
    amortization formula is built from. Every fact here is about real numbers,
    not about floating-point doubles. */
module Power {

  /** x^n. With the loan term a whole number of months this is what
      `Math.pow(1 + monthlyRate, numPayments)` computes. */
  function Pow(x: real, n: nat): real
  {
    if n == 0 then 1.0 else x * Pow(x, n - 1)
  }

  /** 1 + x + x^2 + ... + x^(n-1), in Horner form. With x = 1 + r it is the
      factor by which n equal monthly payments grow by the end of the term. */
  function Geo(x: real, n: nat): real
  {
    if n == 0 then 0.0 else 1.0 + x * Geo(x, n - 1)
  }

  lemma {:induction false} PowPositive(x: real, n: nat)
    requires x > 0.0
    ensures Pow(x, n) > 0.0
  {
    if n > 0 {
      PowPositive(x, n - 1);
      assert x * Pow(x, n - 1) > 0.0;
    }
  }

  /** A base above one raised to a positive power stays above one; this is
      what keeps the denominator of the payment formula away from zero. */
  lemma {:induction false} PowAboveOne(x: real, n: nat)
    requires x > 1.0 && n >= 1
    ensures Pow(x, n) > 1.0
  {
    if n > 1 {
      PowAboveOne(x, n - 1);
      var p := Pow(x, n - 1);
      assert x * p > x * 1.0;
    }
  }

  lemma {:induction false} PowOfOne(n: nat)
    ensures Pow(1.0, n) == 1.0
  {
    if n > 0 {
      PowOfOne(n - 1);
    }
  }

  /** For positive bases, x^n is strictly increasing in x. */
  lemma {:induction false} PowStrictlyIncreasing(a: real, b: real, n: nat)
    requires 0.0 < a < b && n >= 1
    ensures Pow(a, n) < Pow(b, n)
  {
    if n > 1 {
      PowStrictlyIncreasing(a, b, n - 1);
      PowPositive(a, n - 1);
      var pa, pb := Pow(a, n - 1), Pow(b, n - 1);
      assert a * pa < b * pa;
      assert b * pa < b * pb;
    }
  }

  lemma {:induction false} GeoOfOne(n: nat)
    ensures Geo(1.0, n) == n as real
  {
    if n > 0 {
      GeoOfOne(n - 1);
    }
  }

  /** The geometric-series identity (x - 1)(1 + x + ... + x^(n-1)) = x^n - 1. */
  lemma {:induction false} GeoTelescopes(x: real, n: nat)
    ensures (x - 1.0) * Geo(x, n) == Pow(x, n) - 1.0
  {
    if n > 0 {
      GeoTelescopes(x, n - 1);
      var g, p := Geo(x, n - 1), Pow(x, n - 1);
      calc {
        (x - 1.0) * Geo(x, n);
        (x - 1.0) * (1.0 + x * g);
        (x - 1.0) + x * ((x - 1.0) * g);
        (x - 1.0) + x * (p - 1.0);
        x * p - 1.0;
      }
    }
  }

  /** For a non-negative base the sum has at least its leading term 1. */
  lemma {:induction false} GeoAtLeastOne(x: real, n: nat)
    requires x >= 0.0
    ensures Geo(x, n) >= 0.0
    ensures n >= 1 ==> Geo(x, n) >= 1.0
  {
    if n > 0 {
      GeoAtLeastOne(x, n - 1);
      assert x * Geo(x, n - 1) >= 0.0;
    }
  }

  /** The induction step of PowOverGeoIncreasing, on plain reals: pa, ga,
      pb, gb before the step, pa', ga', pb', gb' after it. */
  lemma CrossStep(a: real, b: real, pa: real, pb: real, ga: real, gb: real,
                  pa': real, pb': real, ga': real, gb': real)
    requires a > 0.0 && b > 0.0
    requires pa * gb <= pb * ga && pa' < pb'
    requires pa' == a * pa && pb' == b * pb && ga' == 1.0 + a * ga && gb' == 1.0 + b * gb
    ensures pa' * gb' < pb' * ga'
  {
    var ab := a * b;
    assert ab > 0.0;
    assert ab * (pa * gb) <= ab * (pb * ga);
    assert pa' * gb' == pa' + ab * (pa * gb);
    assert pb' * ga' == pb' + ab * (pb * ga);
  }

  /** For 0 < a < b and n >= 1: a^n / Geo(a, n) < b^n / Geo(b, n), stated
      without division. This is the fact behind "a higher rate means a higher
      payment". */
  lemma {:induction false} PowOverGeoIncreasing(a: real, b: real, n: nat)
    requires 0.0 < a < b
    ensures Pow(a, n) * Geo(b, n) <= Pow(b, n) * Geo(a, n)
    ensures n >= 1 ==> Pow(a, n) * Geo(b, n) < Pow(b, n) * Geo(a, n)
  {
    if n == 0 {
    } else {
      PowOverGeoIncreasing(a, b, n - 1);
      PowStrictlyIncreasing(a, b, n);
      CrossStep(a, b, Pow(a, n - 1), Pow(b, n - 1), Geo(a, n - 1), Geo(b, n - 1),
                Pow(a, n), Pow(b, n), Geo(a, n), Geo(b, n));
    }
  }
}
