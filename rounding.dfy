/** Rounding a fraction to an integer (`math.floor`, `math.ceil`,
    `math.trunc`, `round`) and to a number of decimal digits. */
module Rounding {
  import opened IntegerMath
  import opened Fractions
  import opened Arithmetic

  /** k is a nearest integer to x, and the even one on a tie. */
  predicate NearestEven(x: real, k: int)
  {
    -0.5 <= x - k as real <= 0.5 &&
    (x - k as real == 0.5 || x - k as real == -0.5 ==> k % 2 == 0)
  }

  /** There is only one such integer. */
  lemma NearestEvenUnique(x: real, k1: int, k2: int)
    requires NearestEven(x, k1) && NearestEven(x, k2)
    ensures k1 == k2
  {
  }

  /** `math.floor(f)`: the numerator floor-divided by the denominator. */
  function Floor(f: Fraction): (r: int)
    requires f.den != 0
    ensures r == Value(f).Floor
    ensures r as real <= Value(f) < r as real + 1.0
  {
    FloorDivReal(f.num, f.den);
    FloorDiv(f.num, f.den)
  }

  /** `math.ceil(f)`: -((-n) // d). */
  function Ceil(f: Fraction): (r: int)
    requires f.den != 0
    ensures r as real - 1.0 < Value(f) <= r as real
  {
    FloorDivReal(-f.num, f.den);
    assert (-f.num) as real / f.den as real == -Value(f);
    -FloorDiv(-f.num, f.den)
  }

  /** `math.trunc(f)`: toward zero, the ceiling of a negative fraction and
      the floor of any other. */
  function Trunc(f: Fraction): (r: int)
    requires f.den > 0
    ensures Value(f) >= 0.0 ==> 0 <= r && r as real <= Value(f) < r as real + 1.0
    ensures Value(f) < 0.0 ==> r <= 0 && r as real - 1.0 < Value(f) <= r as real
  {
    ValueLt(f, Fraction(0, 1));
    if f.num < 0 then Ceil(f) else Floor(f)
  }

  /** `round(f)`: half to even, from one divmod of the components. */
  function RoundPlain(f: Fraction): (r: int)
    requires f.den > 0
    ensures NearestEven(Value(f), r)
  {
    var q, m := FloorDiv(f.num, f.den), FloorMod(f.num, f.den);
    FloorDivMod(f.num, f.den);
    RoundingOffsets(f.num, f.den, q, m);
    if 2 * m < f.den then q
    else if 2 * m == f.den && q % 2 == 0 then q
    else q + 1
  }

  /** The distance of the value from q and from q + 1, in terms of the
      remainder m of n by d. */
  lemma RoundingOffsets(n: int, d: int, q: int, m: int)
    requires d > 0 && n == d * q + m && 0 <= m < d
    ensures Value(Fraction(n, d)) - q as real == m as real / d as real
    ensures Value(Fraction(n, d)) - (q + 1) as real == (m - d) as real / d as real
    ensures 2 * m < d ==> m as real / d as real < 0.5
    ensures 2 * m == d ==> m as real / d as real == 0.5
    ensures 2 * m > d ==> -0.5 < (m - d) as real / d as real < 0.0
  {
    assert n as real == d as real * q as real + m as real;
    OffsetsReal(n as real, d as real, q as real, m as real);
    assert (m - d) as real == m as real - d as real;
    HalfReal(d as real, m as real);
  }

  lemma OffsetsReal(n: real, d: real, q: real, m: real)
    requires d > 0.0 && n == d * q + m
    ensures n / d - q == m / d
    ensures n / d - (q + 1.0) == (m - d) / d
  {
    assert (d * q) / d == q;
    assert n / d == (d * q) / d + m / d;
    assert (m - d) / d == m / d - d / d;
  }

  lemma HalfReal(d: real, m: real)
    requires d > 0.0 && 0.0 <= m < d
    ensures 2.0 * m < d ==> m / d < 0.5
    ensures 2.0 * m == d ==> m / d == 0.5
    ensures 2.0 * m > d ==> -0.5 < (m - d) / d < 0.0
  {
    var u := m / d;
    assert d / d == 1.0;
    assert (m - d) / d == m / d - d / d;
    assert (m - d) / d == u - 1.0;
    HalfScaled(d, m, u);
  }

  lemma HalfScaled(d: real, m: real, u: real)
    requires d > 0.0 && 0.0 <= m < d && m == u * d
    ensures 2.0 * m < d ==> u < 0.5
    ensures 2.0 * m == d ==> u == 0.5
    ensures 2.0 * m > d ==> 0.5 < u < 1.0
  {
    BelowHalf(d, m, u);
    AtHalf(d, m, u);
    AboveHalf(d, m, u);
    BelowOne(d, m, u);
  }

  lemma BelowHalf(d: real, m: real, u: real)
    requires d > 0.0 && m == u * d
    ensures 2.0 * m < d ==> u < 0.5
  {
    ScaleCompare(d, u, 0.5);
  }

  lemma AtHalf(d: real, m: real, u: real)
    requires d > 0.0 && m == u * d
    ensures 2.0 * m == d ==> u == 0.5
  {
    ScaleCompare(d, u, 0.5);
  }

  lemma AboveHalf(d: real, m: real, u: real)
    requires d > 0.0 && m == u * d
    ensures 2.0 * m > d ==> 0.5 < u
  {
    ScaleCompare(d, u, 0.5);
  }

  lemma BelowOne(d: real, m: real, u: real)
    requires d > 0.0 && m < d && m == u * d
    ensures u < 1.0
  {
    ScaleCompare(d, u, 1.0);
  }

  /** Scaling by a positive d keeps the order of u against c. */
  lemma ScaleCompare(d: real, u: real, c: real)
    requires d > 0.0
    ensures u < c ==> u * d < c * d
    ensures u == c ==> u * d == c * d
    ensures u > c ==> u * d > c * d
  {
  }

  function Distance(x: real, y: real): real
  {
    if x >= y then x - y else y - x
  }

  /** round(f) is a nearest integer: no integer is closer. */
  lemma RoundPlainNearest(f: Fraction, k: int)
    requires f.den > 0
    ensures Distance(Value(f), RoundPlain(f) as real) <= Distance(Value(f), k as real)
  {
    CloserInteger(Value(f), RoundPlain(f), k);
  }

  /** An integer within 1/2 of v is at least as close as any other integer. */
  lemma CloserInteger(v: real, r: int, k: int)
    requires -0.5 <= v - r as real <= 0.5
    ensures Distance(v, r as real) <= Distance(v, k as real)
  {
    if k > r {
      assert k as real >= r as real + 1.0;
    } else if k < r {
      assert k as real <= r as real - 1.0;
    }
  }

  // ---------------------------------------------------------------------------
  // Rounding to decimal digits
  // ---------------------------------------------------------------------------

  lemma PowTenPositive(p: nat)
    ensures Pow(10, p) > 0
  {
    PowPositive(10, p);
  }

  /** x is v rounded to a multiple of 1/s: x * s is the integer nearest to
      v * s, the even one on a tie. */
  predicate RoundedAt(v: real, x: real, s: real)
  {
    s > 0.0 && x * s == (x * s).Floor as real && NearestEven(v * s, (x * s).Floor)
  }

  /** The rounding at a given scale is unique. */
  lemma RoundedAtUnique(v: real, x1: real, x2: real, s: real)
    requires RoundedAt(v, x1, s) && RoundedAt(v, x2, s)
    ensures x1 == x2
  {
    NearestEvenUnique(v * s, (x1 * s).Floor, (x2 * s).Floor);
    ScaleCancel(x1, x2, s);
  }

  lemma ScaleCancel(x1: real, x2: real, s: real)
    requires s > 0.0 && x1 * s == x2 * s
    ensures x1 == x2
  {
  }

  /** x is v rounded to a multiple of s: x / s is the integer nearest to
      v / s, the even one on a tie. */
  predicate RoundedAtTens(v: real, x: real, s: real)
  {
    s > 0.0 && RoundedAt(v, x, 1.0 / s)
  }

  /** `round(f, p)`.  A negative p divides by 10^-p, rounds, and scales the
      integer back up; otherwise f is multiplied by 10^p, rounded, and the
      pair (rounded, 10^p) is reduced. */
  function Round(f: Fraction, p: int): (r: Fraction)
    requires Canonical(f)
    ensures Canonical(r)
    ensures p >= 0 ==> RoundedAt(Value(f), Value(r), Pow(10, p) as real)
    ensures p < 0 ==> RoundedAtTens(Value(f), Value(r), Pow(10, -p) as real)
  {
    if p < 0 then RoundToTens(f, -p) else RoundToDigits(f, p)
  }

  /** The negative-precision branch: f / 10^k rounded, times 10^k. */
  function RoundToTens(f: Fraction, k: nat): (r: Fraction)
    requires Canonical(f)
    ensures Canonical(r)
    ensures RoundedAtTens(Value(f), Value(r), Pow(10, k) as real)
  {
    var shift := Pow(10, k);
    PowTenPositive(k);
    var t := FractionLongTrueDivide(f, shift).value;
    var q := RoundPlain(t);
    GcdWithOne(q * shift);
    ShiftedBack(f, t, q, shift);
    Fraction(q * shift, 1)
  }

  /** The non-negative-precision branch: f * 10^p rounded, over 10^p. */
  function RoundToDigits(f: Fraction, p: nat): (r: Fraction)
    requires Canonical(f)
    ensures Canonical(r)
    ensures RoundedAt(Value(f), Value(r), Pow(10, p) as real)
  {
    PowTenPositive(p);
    RoundScaled(f, Pow(10, p))
  }

  /** f * scale rounded, over scale, reduced. */
  function RoundScaled(f: Fraction, scale: int): (r: Fraction)
    requires Canonical(f) && scale > 0
    ensures Canonical(r)
    ensures RoundedAt(Value(f), Value(r), scale as real)
  {
    var t := FractionLongMultiply(f, scale);
    var q := RoundPlain(t);
    ScaledDown(f, t, q, scale);
    ReduceOver(q, scale)
  }

  /** The non-negative-precision branch: the result is q / scale with q the
      rounded product. */
  lemma ScaledDown(f: Fraction, t: Fraction, q: int, scale: int)
    requires scale > 0 && f.den != 0 && t.den != 0
    requires Value(t) == Value(f) * scale as real && NearestEven(Value(t), q)
    ensures RoundedAt(Value(f), Value(ReduceOver(q, scale)), scale as real)
  {
    var x := Value(ReduceOver(q, scale));
    assert x == q as real / scale as real;
    ScaleReal(Value(f), Value(t), x, q, scale as real);
  }

  /** The pair (q, scale) in lowest terms. */
  function ReduceOver(q: int, scale: int): (r: Fraction)
    requires scale > 0
    ensures Canonical(r) && Value(r) == q as real / scale as real
  {
    Reduce(q, scale)
  }

  /** The negative-precision branch: the result is q * 10^k with q the
      rounded quotient. */
  lemma ShiftedBack(f: Fraction, t: Fraction, q: int, shift: int)
    requires shift > 0 && f.den != 0 && t.den != 0
    requires Value(t) == Value(f) / shift as real && NearestEven(Value(t), q)
    ensures RoundedAtTens(Value(f), Value(Fraction(q * shift, 1)), shift as real)
  {
    assert (q * shift) as real == q as real * shift as real;
    ShiftReal(Value(f), Value(t), Value(Fraction(q * shift, 1)), q, shift as real);
  }

  lemma ShiftReal(v: real, t: real, x: real, q: int, s: real)
    requires s > 0.0 && t == v / s && NearestEven(t, q) && x == q as real * s
    ensures RoundedAtTens(v, x, s)
  {
    var u := 1.0 / s;
    assert x * u == q as real;
    assert (x * u).Floor == q;
    assert v * u == t;
    assert NearestEven(v * u, q);
    assert RoundedAt(v, x, u);
  }

  lemma ScaleReal(v: real, t: real, x: real, q: int, s: real)
    requires s > 0.0 && t == v * s && NearestEven(t, q) && x == q as real / s
    ensures RoundedAt(v, x, s)
  {
    assert x * s == q as real;
  }

  /** Rounding to zero digits is plain rounding, as a fraction. */
  lemma RoundZeroDigits(f: Fraction)
    requires Canonical(f)
    ensures Round(f, 0) == OfInt(RoundPlain(f))
  {
    var r := Round(f, 0);
    assert Pow(10, 0) == 1;
    assert Value(r) * 1.0 == Value(r);
    NearestEvenUnique(Value(f), Value(r).Floor, RoundPlain(f));
    CanonicalUnique(r, OfInt(RoundPlain(f)));
  }
}
