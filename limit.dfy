/** `limit_denominator(max)`: the continued-fraction expansion of the
    fraction is followed until the next convergent's denominator would
    exceed `max`; the answer is whichever of the last convergent and the
    best semiconvergent is closer. */
module Limiting {
  import opened IntegerMath
  import opened Fractions
  import opened Arithmetic
  import opened Comparison
  import opened Rounding

  /** The bound used when no maximum is given. */
  const DefaultMaxDenominator: int := 1000000

  // ---------------------------------------------------------------------------
  // Algebra of one expansion step
  // ---------------------------------------------------------------------------

  /** The step keeps x == x1 * n + x0 * d (for both numerators and denominators). */
  lemma ContinuantStep(x0: int, x1: int, n: int, d: int, a: int)
    ensures (x0 + a * x1) * d + x1 * (n - a * d) == x1 * n + x0 * d
  {
    assert (x0 + a * x1) * d == x0 * d + a * x1 * d;
    assert x1 * (n - a * d) == x1 * n - x1 * a * d;
    assert a * x1 * d == x1 * a * d;
  }

  /** The step negates the determinant p1 * q0 - p0 * q1. */
  lemma DeterminantStep(p0: int, p1: int, q0: int, q1: int, a: int)
    ensures (p0 + a * p1) * q1 - p1 * (q0 + a * q1) == -(p1 * q0 - p0 * q1)
  {
    assert (p0 + a * p1) * q1 == p0 * q1 + a * p1 * q1;
    assert p1 * (q0 + a * q1) == p1 * q0 + p1 * a * q1;
    assert a * p1 * q1 == p1 * a * q1;
  }

  /** A positive common factor of a pair in lowest terms is 1. */
  lemma CommonFactorIsOne(nn: int, dd: int, x: int, y: int, g: int)
    requires Gcd(nn, dd) == 1 && g > 0 && nn == x * g && dd == y * g
    ensures g == 1
  {
    MulComm(x, g);
    MulComm(y, g);
    DividesMultiple(g, x);
    DividesMultiple(g, y);
    GcdGreatest(nn, dd, g);
    DividesOne(g);
  }

  /** p/q and the pair with determinant +-1 against it are in lowest terms. */
  lemma UnitDeterminantCoprime(p: int, q: int, p': int, q': int)
    requires p * q' - p' * q == 1 || p * q' - p' * q == -1
    ensures Gcd(p, q) == 1
  {
    if p * q' - p' * q == 1 {
      CoprimeByCombination(p, q, q', -p');
    } else {
      CoprimeByCombination(p, q, -q', p');
    }
  }

  /** The semiconvergent (p0 + k p1)/(q0 + k q1) has the same unit
      determinant against p1/q1. */
  lemma SemiconvergentDeterminant(p0: int, p1: int, q0: int, q1: int, k: int)
    ensures (p0 + k * p1) * q1 - p1 * (q0 + k * q1) == p0 * q1 - p1 * q0
  {
    assert (p0 + k * p1) * q1 == p0 * q1 + k * p1 * q1;
    assert p1 * (q0 + k * q1) == p1 * q0 + p1 * k * q1;
    assert k * p1 * q1 == p1 * k * q1;
  }

  /** The largest k with q0 + k q1 <= max gives a denominator in 1..max. */
  lemma SemiconvergentDenominator(q0: int, q1: int, maxDen: int, k: int)
    requires 0 <= q0 <= maxDen && 1 <= q1 <= maxDen && k == FloorDiv(maxDen - q0, q1)
    ensures k >= 0 && q0 == 0 ==> k >= 1
    ensures 1 <= q0 + k * q1 <= maxDen
  {
    FloorDivMod(maxDen - q0, q1);
    var m := FloorMod(maxDen - q0, q1);
    assert maxDen - q0 == q1 * k + m;
    if k < 0 {
      MulPositive(q1, -k);
    }
    MulNonNegative(k, q1);
    MulComm(k, q1);
    if k >= 1 {
      assert k * q1 == (k - 1) * q1 + q1;
      MulNonNegative(k - 1, q1);
    }
  }

  /** The state at the end of the loop puts the denominator past max over d. */
  lemma DenominatorPastBound(dd: int, q0: int, q1: int, n: int, d: int, a: int, maxDen: int)
    requires d > 0 && q1 >= 1 && a == FloorDiv(n, d) && q0 + a * q1 > maxDen
    requires dd == q1 * n + q0 * d
    ensures dd >= d * (maxDen + 1)
  {
    FloorDivMod(n, d);
    var m := FloorMod(n, d);
    assert n == d * a + m;
    assert q1 * n == q1 * (d * a) + q1 * m;
    assert q1 * (d * a) == d * (a * q1);
    MulNonNegative(q1, m);
    assert dd == d * (q0 + a * q1) + q1 * m;
    assert d * (q0 + a * q1) >= d * (maxDen + 1) by {
      MulNonNegative(d, q0 + a * q1 - (maxDen + 1));
    }
  }

  /** The last convergent p1/q1 lies within d / (q1 * D) of N/D, which is
      less than 1/max. */
  lemma ConvergentClose(nn: int, dd: int, p1: int, q1: int, d: int, maxDen: int)
    requires dd > 0 && q1 >= 1 && d > 0 && maxDen >= 1
    requires p1 * dd - nn * q1 == d || p1 * dd - nn * q1 == -d
    requires dd >= d * (maxDen + 1)
    ensures Distance(Value(Fraction(p1, q1)), Value(Fraction(nn, dd))) < 1.0 / maxDen as real
  {
    DifferenceValue(Fraction(p1, q1), Fraction(nn, dd));
    var gap := Fraction(p1 * dd - nn * q1, q1 * dd);
    MulPositive(q1, dd);
    assert q1 * dd >= dd by {
      MulNonNegative(q1 - 1, dd);
    }
    assert d * maxDen < q1 * dd;
    SmallGap(p1 * dd - nn * q1, q1 * dd, d, maxDen);
  }

  lemma SmallGap(x: int, y: int, d: int, maxDen: int)
    requires y > 0 && d > 0 && maxDen >= 1 && (x == d || x == -d) && d * maxDen < y
    ensures Distance(Value(Fraction(x, y)), 0.0) < 1.0 / maxDen as real
  {
    assert (d * maxDen) as real == d as real * maxDen as real;
    RealGap(x as real, y as real, d as real, maxDen as real);
  }

  lemma RealGap(x: real, y: real, d: real, m: real)
    requires y > 0.0 && d > 0.0 && m >= 1.0 && (x == d || x == -d) && d * m < y
    ensures Distance(x / y, 0.0) < 1.0 / m
  {
    assert Distance(x / y, 0.0) == d / y;
    assert (d / y) * m == (d * m) / y;
  }

  // ---------------------------------------------------------------------------
  // The method
  // ---------------------------------------------------------------------------

  /** What the expansion keeps: the original pair is the current pair
      (n, d) transformed by the convergent matrix [p1 p0; q1 q0], whose
      determinant is +-1, and both denominators stay within max. */
  predicate Expansion(f: Fraction, maxDen: int, n: int, d: int, p0: int, q0: int, p1: int, q1: int)
  {
    d > 0 &&
    f.num == p1 * n + p0 * d && f.den == q1 * n + q0 * d &&
    (p1 * q0 - p0 * q1 == 1 || p1 * q0 - p0 * q1 == -1) &&
    0 <= q0 <= maxDen && 0 <= q1 <= maxDen &&
    (q1 == 0 ==> q0 == 1) &&
    (q1 >= 1 ==> n > d)
  }

  /** One step of the expansion, taken when the next denominator fits,
      keeps the invariant and leaves a positive, smaller remainder. */
  lemma ExpansionStep(f: Fraction, maxDen: int, n: int, d: int, p0: int, q0: int, p1: int, q1: int)
    requires Canonical(f) && f.den > maxDen
    requires Expansion(f, maxDen, n, d, p0, q0, p1, q1)
    requires q0 + FloorDiv(n, d) * q1 <= maxDen
    ensures var a := FloorDiv(n, d);
            0 < n - a * d < d &&
            Expansion(f, maxDen, d, n - a * d, p1, q1, p0 + a * p1, q0 + a * q1)
  {
    var a := FloorDiv(n, d);
    StepQuotient(n, d, q0, q1, a);
    ContinuantStep(p0, p1, n, d, a);
    ContinuantStep(q0, q1, n, d, a);
    DeterminantStep(p0, p1, q0, q1, a);
    StepRemainder(f, maxDen, d, n - a * d, p0 + a * p1, p1, q0 + a * q1, q1);
  }

  /** The partial quotient: the remainder is in 0..d-1, and after the first
      step the quotient is at least 1, so the denominators grow. */
  lemma StepQuotient(n: int, d: int, q0: int, q1: int, a: int)
    requires d > 0 && q0 >= 0 && q1 >= 0 && a == FloorDiv(n, d)
    requires q1 == 0 ==> q0 == 1
    requires q1 >= 1 ==> n > d
    ensures 0 <= n - a * d < d
    ensures q0 + a * q1 >= 1 && q0 + a * q1 >= q1
  {
    FloorDivMod(n, d);
    MulComm(d, a);
    if q1 >= 1 {
      assert a >= 1 by {
        if a <= 0 {
          MulNonNegative(d, -a);
        }
      }
      MulNonNegative(a - 1, q1);
      assert q0 + a * q1 == q0 + (a - 1) * q1 + q1;
    }
  }

  /** The remainder never reaches 0 before the loop stops: a zero remainder
      would make d a common factor of the pair, so d == 1 and the fraction's
      denominator would already fit. */
  lemma StepRemainder(f: Fraction, maxDen: int, d: int, rest: int, x1: int, x0: int, y1: int, y0: int)
    requires Canonical(f) && f.den > maxDen && d > 0 && y1 <= maxDen
    requires f.num == x1 * d + x0 * rest && f.den == y1 * d + y0 * rest
    ensures rest != 0
  {
    if rest == 0 {
      assert f.num == x1 * d && f.den == y1 * d;
      CommonFactorIsOne(f.num, f.den, x1, y1, d);
    }
  }

  /** When the next denominator would exceed max, both candidate bounds are
      canonical with denominators in 1..max, and the last convergent lies
      within 1/max of the fraction. */
  lemma {:induction false} ExpansionEnd(f: Fraction, maxDen: int, n: int, d: int, p0: int, q0: int, p1: int, q1: int)
    requires Canonical(f) && maxDen >= 1
    requires Expansion(f, maxDen, n, d, p0, q0, p1, q1)
    requires q0 + FloorDiv(n, d) * q1 > maxDen
    ensures q1 >= 1
    ensures var k := FloorDiv(maxDen - q0, q1);
            Canonical(Fraction(p0 + k * p1, q0 + k * q1)) && q0 + k * q1 <= maxDen
    ensures Canonical(Fraction(p1, q1))
    ensures Distance(Value(Fraction(p1, q1)), Value(f)) < 1.0 / maxDen as real
  {
    assert q1 >= 1;
    DenominatorPastBound(f.den, q0, q1, n, d, FloorDiv(n, d), maxDen);
    var k := FloorDiv(maxDen - q0, q1);
    SemiconvergentDenominator(q0, q1, maxDen, k);
    SemiconvergentDeterminant(p0, p1, q0, q1, k);
    UnitDeterminantCoprime(p1, q1, p0, q0);
    UnitDeterminantCoprime(p0 + k * p1, q0 + k * q1, p1, q1);
    ConvergentGap(f, p0, p1, q0, q1, n, d);
    ConvergentClose(f.num, f.den, p1, q1, d, maxDen);
  }

  /** `Fraction_limit_denominator_impl`: max below 1 is a ValueError; a
      fraction whose denominator already fits is returned unchanged;
      otherwise the result is a canonical fraction with denominator at most
      max that lies within 1/max of the input. */
  method LimitDenominator(f: Fraction, maxDen: int) returns (r: Result<Fraction>)
    requires Canonical(f)
    ensures r.Err? <==> maxDen < 1
    ensures r.Err? ==> r.error == ValueError
    ensures maxDen >= 1 && f.den <= maxDen ==> r == Ok(f)
    ensures r.Ok? ==> Canonical(r.value) && r.value.den <= maxDen
    ensures r.Ok? ==> Distance(Value(r.value), Value(f)) < 1.0 / maxDen as real
  {
    if maxDen < 1 {
      return Err(ValueError);
    }
    if f.den <= maxDen {
      return Ok(f);
    }
    var n, d := f.num, f.den;
    var p0, q0, p1, q1 := 0, 1, 1, 0;
    while q0 + FloorDiv(n, d) * q1 <= maxDen
      invariant Expansion(f, maxDen, n, d, p0, q0, p1, q1)
      decreases d
    {
      var a := FloorDiv(n, d);
      ExpansionStep(f, maxDen, n, d, p0, q0, p1, q1);
      n, d := d, n - a * d;
      q0, q1 := q1, q0 + a * q1;
      p0, p1 := p1, p0 + a * p1;
    }
    ExpansionEnd(f, maxDen, n, d, p0, q0, p1, q1);
    var k := FloorDiv(maxDen - q0, q1);
    var bound1 := Fraction(p0 + k * p1, q0 + k * q1);
    var bound2 := Fraction(p1, q1);
    var distance1 := Absolute(FractionsSubtract(bound1, f));
    var distance2 := Absolute(FractionsSubtract(bound2, f));
    if FractionsRichCompare(distance2, distance1, Le) {
      r := Ok(bound2);
    } else {
      r := Ok(bound1);
    }
  }

  /** p1 * D - N * q1 == d * (p1 q0 - p0 q1). */
  lemma ConvergentGap(f: Fraction, p0: int, p1: int, q0: int, q1: int, n: int, d: int)
    requires f.num == p1 * n + p0 * d && f.den == q1 * n + q0 * d
    requires p1 * q0 - p0 * q1 == 1 || p1 * q0 - p0 * q1 == -1
    ensures p1 * f.den - f.num * q1 == d || p1 * f.den - f.num * q1 == -d
  {
    assert p1 * f.den == p1 * q1 * n + p1 * q0 * d;
    assert f.num * q1 == p1 * n * q1 + p0 * d * q1;
    assert p1 * f.den - f.num * q1 == d * (p1 * q0 - p0 * q1);
  }

  /** `limit_denominator()` with the default bound of one million. */
  method LimitDenominatorDefault(f: Fraction) returns (r: Result<Fraction>)
    requires Canonical(f)
    ensures r.Ok?
    ensures f.den <= DefaultMaxDenominator ==> r == Ok(f)
    ensures Canonical(r.value) && r.value.den <= DefaultMaxDenominator
    ensures Distance(Value(r.value), Value(f)) < 1.0 / DefaultMaxDenominator as real
  {
    r := LimitDenominator(f, DefaultMaxDenominator);
  }
}
