/** Binary arithmetic on fraction objects and host integers: add, subtract,
    multiply, true divide, floor divide, remainder and divmod.

    Each operation has three forms: fraction ⊕ fraction (`Fractions_*`),
    fraction ⊕ int (`FractionLong_*`) and int ⊕ fraction (`LongFraction_*`),
    chosen by a dispatcher on the operands' types.  Every form is specified
    by the exact rational operation on the operands' values, and canonical
    inputs give canonical results. */
module Arithmetic {
  import opened IntegerMath
  import opened Fractions

  /** The object invariant on an operand: a fraction operand is canonical. */
  predicate ValidOperand(x: Operand)
  {
    x.Frac? ==> Canonical(x.f)
  }

  /** The fraction an operand stands for. */
  function AsFraction(x: Operand): (r: Fraction)
    requires ValidOperand(x)
    ensures Canonical(r) && Value(r) == OperandValue(x)
  {
    match x
    case Frac(f) => f
    case Int(i) => OfInt(i)
  }

  /** The floored remainder on exact values: x - floor(x / y) * y. */
  function ModValue(x: real, y: real): real
    requires y != 0.0
  {
    x - (x / y).Floor as real * y
  }

  /** The floored remainder lies between 0 and the divisor, on the divisor's side. */
  lemma ModValueRange(x: real, y: real)
    requires y != 0.0
    ensures y > 0.0 ==> 0.0 <= ModValue(x, y) < y
    ensures y < 0.0 ==> y < ModValue(x, y) <= 0.0
  {
    var t := x / y;
    var k := t.Floor as real;
    assert k <= t < k + 1.0;
    ModAsScaled(x, y, t, k);
    assert ModValue(x, y) == x - k * y;
    ScaledRange(ModValue(x, y), y, t - k);
  }

  lemma ScaledRange(v: real, y: real, s: real)
    requires 0.0 <= s < 1.0 && v == y * s
    ensures y > 0.0 ==> 0.0 <= v < y
    ensures y < 0.0 ==> y < v <= 0.0
  {
    if y > 0.0 {
      assert y * s < y * 1.0;
    } else if y < 0.0 {
      assert y * 1.0 < y * s;
    }
  }

  lemma ModAsScaled(x: real, y: real, t: real, k: real)
    requires y != 0.0 && t == x / y
    ensures x - k * y == y * (t - k)
  {
    assert x == t * y;
  }

  // ---------------------------------------------------------------------------
  // Values of the unreduced results
  // ---------------------------------------------------------------------------

  lemma SumValue(a: Fraction, b: Fraction)
    requires a.den != 0 && b.den != 0
    ensures a.den * b.den != 0 && (a.den > 0 && b.den > 0 ==> a.den * b.den > 0)
    ensures Value(Fraction(a.num * b.den + b.num * a.den, a.den * b.den)) == Value(a) + Value(b)
  {
    MulNonZero(a.den, b.den);
    assert (a.den * b.den) as real == a.den as real * b.den as real;
    assert (a.num * b.den + b.num * a.den) as real ==
           a.num as real * b.den as real + b.num as real * a.den as real;
  }

  lemma DifferenceValue(a: Fraction, b: Fraction)
    requires a.den != 0 && b.den != 0
    ensures a.den * b.den != 0 && (a.den > 0 && b.den > 0 ==> a.den * b.den > 0)
    ensures Value(Fraction(a.num * b.den - b.num * a.den, a.den * b.den)) == Value(a) - Value(b)
  {
    MulNonZero(a.den, b.den);
    assert (a.den * b.den) as real == a.den as real * b.den as real;
    assert (a.num * b.den - b.num * a.den) as real ==
           a.num as real * b.den as real - b.num as real * a.den as real;
  }

  lemma ProductValue(a: Fraction, b: Fraction)
    requires a.den != 0 && b.den != 0
    ensures a.den * b.den != 0
    ensures Value(Fraction(a.num * b.num, a.den * b.den)) == Value(a) * Value(b)
  {
    MulNonZero(a.den, b.den);
    assert (a.den * b.den) as real == a.den as real * b.den as real;
    assert (a.num * b.num) as real == a.num as real * b.num as real;
  }

  /** An integer written over a denominator d as (i * d) / d. */
  lemma IntOverDen(i: int, d: int)
    requires d != 0
    ensures Value(Fraction(i * d, d)) == i as real
  {
    assert (i * d) as real == i as real * d as real;
  }

  /** The cross products of a / b, each over a.den * b.den, have the values of a and b. */
  lemma CrossValues(a: Fraction, b: Fraction)
    requires a.den != 0 && b.den != 0
    ensures a.den * b.den != 0
    ensures Value(Fraction(a.num * b.den, a.den * b.den)) == Value(a)
    ensures Value(Fraction(b.num * a.den, a.den * b.den)) == Value(b)
  {
    MulNonZero(a.den, b.den);
    ValueEq(Fraction(a.num * b.den, a.den * b.den), a);
    ValueEq(Fraction(b.num * a.den, a.den * b.den), b);
  }

  lemma CommonDenominatorRatio(x: int, y: int, den: int)
    requires y != 0 && den != 0
    ensures Value(Fraction(y, den)) != 0.0
    ensures Value(Fraction(x, den)) / Value(Fraction(y, den)) == x as real / y as real
  {
    var u, v, dd := x as real, y as real, den as real;
    assert (u / dd) / (v / dd) == u / v;
  }

  lemma RemainderOverDenominator(x: int, y: int, den: int, q: int, m: int)
    requires den != 0 && x == y * q + m
    ensures Value(Fraction(m, den)) == Value(Fraction(x, den)) - q as real * Value(Fraction(y, den))
  {
    assert m as real == x as real - y as real * q as real;
    var dd := den as real;
    assert m as real / dd == x as real / dd - q as real * (y as real / dd);
  }

  /** x // y and x % y, read over a common denominator, are the floor of the
      quotient and the floored remainder of the values. */
  lemma DivModValues(x: int, y: int, den: int, u: real, v: real)
    requires y != 0 && den != 0
    requires u == Value(Fraction(x, den)) && v == Value(Fraction(y, den))
    ensures v != 0.0
    ensures FloorDiv(x, y) == (u / v).Floor
    ensures Value(Fraction(FloorMod(x, y), den)) == ModValue(u, v)
  {
    CommonDenominatorRatio(x, y, den);
    FloorDivReal(x, y);
    FloorDivMod(x, y);
    RemainderOverDenominator(x, y, den, FloorDiv(x, y), FloorMod(x, y));
  }

  /** Cancelling a positive common factor k from both operands keeps the floored quotient. */
  lemma CancelledQuotient(x: int, y: int, k: int, x': int, y': int)
    requires k > 0 && y' != 0 && x == k * x' && y == k * y'
    ensures y != 0 && FloorDiv(x, y) == FloorDiv(x', y')
  {
    MulNonZero(k, y');
    FloorDivCancel(x', y', k);
  }

  // ---------------------------------------------------------------------------
  // Addition and subtraction
  // ---------------------------------------------------------------------------

  /** `Fractions_add`: cross-multiply and add over the product of denominators, then reduce. */
  function FractionsAdd(a: Fraction, b: Fraction): (r: Fraction)
    requires a.den != 0 && b.den != 0
    ensures r.den != 0 && Value(r) == Value(a) + Value(b)
    ensures a.den > 0 && b.den > 0 ==> Canonical(r)
  {
    SumValue(a, b);
    Reduce(a.num * b.den + b.num * a.den, a.den * b.den)
  }

  /** `FractionLong_add`: n + i * d over d, reduced. */
  function FractionLongAdd(f: Fraction, i: int): (r: Fraction)
    requires f.den != 0
    ensures r.den != 0 && Value(r) == Value(f) + i as real
    ensures f.den > 0 ==> Canonical(r)
  {
    assert (f.num + i * f.den) as real / f.den as real == Value(f) + i as real;
    Reduce(f.num + i * f.den, f.den)
  }

  /** `Fractions_subtract`. */
  function FractionsSubtract(a: Fraction, b: Fraction): (r: Fraction)
    requires a.den != 0 && b.den != 0
    ensures r.den != 0 && Value(r) == Value(a) - Value(b)
    ensures a.den > 0 && b.den > 0 ==> Canonical(r)
  {
    DifferenceValue(a, b);
    Reduce(a.num * b.den - b.num * a.den, a.den * b.den)
  }

  /** `FractionLong_subtract`: n - i * d over d, reduced. */
  function FractionLongSubtract(f: Fraction, i: int): (r: Fraction)
    requires f.den != 0
    ensures r.den != 0 && Value(r) == Value(f) - i as real
    ensures f.den > 0 ==> Canonical(r)
  {
    assert (f.num - i * f.den) as real / f.den as real == Value(f) - i as real;
    Reduce(f.num - i * f.den, f.den)
  }

  /** int - fraction: the fraction minus the int, with the numerator then negated. */
  function LongFractionSubtract(i: int, f: Fraction): (r: Fraction)
    requires f.den != 0
    ensures r.den != 0 && Value(r) == i as real - Value(f)
    ensures f.den > 0 ==> Canonical(r)
  {
    Negative(FractionLongSubtract(f, i))
  }

  /** `Fraction_add`: the dispatcher; an int on the left is added on the right. */
  function Add(x: Operand, y: Operand): (r: Fraction)
    requires x.Frac? || y.Frac?
    requires ValidOperand(x) && ValidOperand(y)
    ensures Canonical(r) && Value(r) == OperandValue(x) + OperandValue(y)
  {
    match (x, y)
    case (Frac(a), Frac(b)) => FractionsAdd(a, b)
    case (Frac(a), Int(i)) => FractionLongAdd(a, i)
    case (Int(i), Frac(b)) => FractionLongAdd(b, i)
  }

  /** `Fraction_subtract`. */
  function Subtract(x: Operand, y: Operand): (r: Fraction)
    requires x.Frac? || y.Frac?
    requires ValidOperand(x) && ValidOperand(y)
    ensures Canonical(r) && Value(r) == OperandValue(x) - OperandValue(y)
  {
    match (x, y)
    case (Frac(a), Frac(b)) => FractionsSubtract(a, b)
    case (Frac(a), Int(i)) => FractionLongSubtract(a, i)
    case (Int(i), Frac(b)) => LongFractionSubtract(i, b)
  }

  /** int - fraction as the engine performs it: build the difference the other
      way round as a new object, then negate that object's numerator in place. */
  method SubtractFromInt(i: int, f: Fraction) returns (r: FractionObject)
    requires Canonical(f)
    ensures fresh(r) && r.State() == Subtract(Int(i), Frac(f))
    ensures Canonical(r.State()) && Value(r.State()) == i as real - Value(f)
  {
    var difference := FractionLongSubtract(f, i);
    r := new FractionObject();
    var status := r.Init(One(FracArg(difference)));
    r.num := -r.num;
  }

  // ---------------------------------------------------------------------------
  // Multiplication
  // ---------------------------------------------------------------------------

  /** Regrouping the factors of the cross-reduced product. */
  lemma ScaledProduct(an: int, ad: int, bn: int, bd: int, g1: int, g2: int,
                      n1: int, d1: int, n2: int, d2: int)
    requires an == g1 * n1 && bd == g1 * d2 && bn == g2 * n2 && ad == g2 * d1
    ensures an * bn == (g1 * g2) * (n1 * n2)
    ensures ad * bd == (g1 * g2) * (d1 * d2)
  {
    MulEq(an, bn, g1 * n1, g2 * n2);
    MulEq(ad, bd, g2 * d1, g1 * d2);
  }

  lemma PositiveFactor(g: int, x: int)
    requires g > 0 && g * x > 0
    ensures x > 0
  {
  }

  /** The cross-reduced product (n1 * n2) / (d1 * d2), where
      a = (g1 * n1) / (g2 * d1) and b = (g2 * n2) / (g1 * d2), has the value a * b. */
  lemma CrossReducedValue(a: Fraction, b: Fraction, g1: int, g2: int,
                          n1: int, d2: int, n2: int, d1: int)
    requires a.den != 0 && b.den != 0 && g1 > 0 && g2 > 0
    requires a.num == g1 * n1 && b.den == g1 * d2 && b.num == g2 * n2 && a.den == g2 * d1
    ensures d1 * d2 != 0
    ensures Value(Fraction(n1 * n2, d1 * d2)) == Value(a) * Value(b)
  {
    ScaledProduct(a.num, a.den, b.num, b.den, g1, g2, n1, d1, n2, d2);
    MulNonZero(d1, d2);
    MulPositive(g1, g2);
    ValueCancel(n1 * n2, d1 * d2, g1 * g2);
    ProductValue(a, b);
  }

  /** Cross-reduction leaves nothing to cancel: with an/ad and bn/bd in lowest
      terms, n1 = an/g1, d2 = bd/g1 (g1 = gcd(an, bd)) and n2 = bn/g2,
      d1 = ad/g2 (g2 = gcd(bn, ad)), the product n1 * n2 is coprime to d1 * d2. */
  lemma CrossReducedCoprime(an: int, ad: int, bn: int, bd: int, g1: int, g2: int,
                            n1: int, d2: int, n2: int, d1: int)
    requires Gcd(an, ad) == 1 && Gcd(bn, bd) == 1
    requires g1 == Gcd(an, bd) && g2 == Gcd(bn, ad) && g1 > 0 && g2 > 0
    requires n1 == an / g1 && d2 == bd / g1 && n2 == bn / g2 && d1 == ad / g2
    requires an == g1 * n1 && bd == g1 * d2 && bn == g2 * n2 && ad == g2 * d1
    ensures Gcd(n1 * n2, d1 * d2) == 1
  {
    CoprimeAfterGcd(an, bd);
    CoprimeAfterGcd(bn, ad);
    DividesMultiple(n1, g1);
    DividesMultiple(d2, g1);
    DividesMultiple(n2, g2);
    DividesMultiple(d1, g2);
    MulComm(n1, g1);
    MulComm(d2, g1);
    MulComm(n2, g2);
    MulComm(d1, g2);
    CoprimeDivisors(an, ad, n1, d1);
    CoprimeDivisors(bn, bd, n2, d2);
    GcdComm(n2, d1);
    CoprimeMul(n1, n2, d1);
    CoprimeMul(n1, n2, d2);
    GcdComm(n1 * n2, d1);
    GcdComm(n1 * n2, d2);
    CoprimeMul(d1, d2, n1 * n2);
    GcdComm(d1 * d2, n1 * n2);
  }

  /** The gcd g of x with a nonzero number is positive and divides x exactly. */
  lemma GcdQuotient(x: int, y: int)
    requires y != 0
    ensures Gcd(x, y) > 0
    ensures FloorDiv(x, Gcd(x, y)) == x / Gcd(x, y) && x == Gcd(x, y) * (x / Gcd(x, y))
    ensures FloorDiv(y, Gcd(x, y)) == y / Gcd(x, y) && y == Gcd(x, y) * (y / Gcd(x, y))
  {
    GcdZero(x, y);
    GcdDivides(x, y);
    ExactQuotient(x, Gcd(x, y));
    ExactQuotient(y, Gcd(x, y));
  }

  /** `Fractions_multiply`: cross-reduce, then multiply; no final gcd. */
  function FractionsMultiply(a: Fraction, b: Fraction): (r: Fraction)
    requires a.den != 0 && b.den != 0
    ensures r.den != 0 && Value(r) == Value(a) * Value(b)
    ensures Canonical(a) && Canonical(b) ==> Canonical(r)
  {
    GcdQuotient(a.num, b.den);
    GcdQuotient(b.num, a.den);
    var g1 := Gcd(a.num, b.den);
    var g2 := Gcd(b.num, a.den);
    var n1, d2 := FloorDiv(a.num, g1), FloorDiv(b.den, g1);
    var n2, d1 := FloorDiv(b.num, g2), FloorDiv(a.den, g2);
    CrossReducedValue(a, b, g1, g2, n1, d2, n2, d1);
    CrossReducedCanonical(a, b, g1, g2, n1, d2, n2, d1);
    Fraction(n1 * n2, d1 * d2)
  }

  lemma CrossReducedCanonical(a: Fraction, b: Fraction, g1: int, g2: int,
                              n1: int, d2: int, n2: int, d1: int)
    requires a.den != 0 && b.den != 0 && g1 > 0 && g2 > 0
    requires g1 == Gcd(a.num, b.den) && g2 == Gcd(b.num, a.den)
    requires n1 == a.num / g1 && d2 == b.den / g1 && n2 == b.num / g2 && d1 == a.den / g2
    requires a.num == g1 * n1 && b.den == g1 * d2 && b.num == g2 * n2 && a.den == g2 * d1
    ensures Canonical(a) && Canonical(b) ==> Canonical(Fraction(n1 * n2, d1 * d2))
  {
    if Canonical(a) && Canonical(b) {
      CrossReducedCoprime(a.num, a.den, b.num, b.den, g1, g2, n1, d2, n2, d1);
      PositiveFactor(g2, d1);
      PositiveFactor(g1, d2);
      MulPositive(d1, d2);
    }
  }

  /** `FractionLong_multiply`: g = gcd(i, d); (n * (i/g)) / (d/g), with no final gcd. */
  function FractionLongMultiply(f: Fraction, i: int): (r: Fraction)
    requires f.den != 0
    ensures r.den != 0 && Value(r) == Value(f) * i as real
    ensures Canonical(f) ==> Canonical(r)
  {
    GcdQuotient(i, f.den);
    var g := Gcd(i, f.den);
    var k, d := FloorDiv(i, g), FloorDiv(f.den, g);
    ScaledIntValue(f, i, g, k, d);
    ScaledIntCanonical(f, i, g, k, d);
    Fraction(f.num * k, d)
  }

  lemma ScaledIntValue(f: Fraction, i: int, g: int, k: int, d: int)
    requires f.den != 0 && g > 0 && i == g * k && f.den == g * d
    ensures d != 0 && Value(Fraction(f.num * k, d)) == Value(f) * i as real
  {
    assert f.num * i == g * (f.num * k);
    ValueCancel(f.num * k, d, g);
    ProductValue(f, Fraction(i, 1));
  }

  lemma ScaledIntCanonical(f: Fraction, i: int, g: int, k: int, d: int)
    requires f.den != 0 && g == Gcd(i, f.den) && g > 0
    requires k == i / g && d == f.den / g && i == g * k && f.den == g * d
    ensures Canonical(f) ==> Canonical(Fraction(f.num * k, d))
  {
    if Canonical(f) {
      CoprimeAfterGcd(i, f.den);
      DividesMultiple(d, g);
      MulComm(d, g);
      DividesSelf(f.num);
      CoprimeDivisors(f.num, f.den, f.num, d);
      CoprimeMul(f.num, k, d);
      PositiveFactor(g, d);
    }
  }

  /** `Fraction_multiply`. */
  function Multiply(x: Operand, y: Operand): (r: Fraction)
    requires x.Frac? || y.Frac?
    requires ValidOperand(x) && ValidOperand(y)
    ensures Canonical(r) && Value(r) == OperandValue(x) * OperandValue(y)
  {
    match (x, y)
    case (Frac(a), Frac(b)) => FractionsMultiply(a, b)
    case (Frac(a), Int(i)) => FractionLongMultiply(a, i)
    case (Int(i), Frac(b)) => FractionLongMultiply(b, i)
  }

  // ---------------------------------------------------------------------------
  // True division
  // ---------------------------------------------------------------------------

  /** `Fractions_true_divide`: a zero divisor raises; otherwise cancel
      gcd(a.num, b.num) and gcd(b.den, a.den), multiply crosswise and move the
      sign to the numerator. */
  function FractionsTrueDivide(a: Fraction, b: Fraction): (r: Result<Fraction>)
    requires a.den != 0 && b.den != 0
    ensures r.Err? <==> b.num == 0
    ensures r.Err? ==> r.error == ZeroDivisionError
    ensures r.Ok? ==> Value(b) != 0.0 && r.value.den > 0 && Value(r.value) == Value(a) / Value(b)
    ensures r.Ok? && Canonical(a) && Canonical(b) ==> Canonical(r.value)
  {
    if b.num == 0 then
      Err(ZeroDivisionError)
    else
      GcdQuotient(a.num, b.num);
      GcdQuotient(b.den, a.den);
      var g1 := Gcd(a.num, b.num);
      var g2 := Gcd(b.den, a.den);
      var n1, m := FloorDiv(a.num, g1), FloorDiv(b.num, g1);
      var d1, e := FloorDiv(a.den, g2), FloorDiv(b.den, g2);
      CrossReducedQuotient(a, b, g1, g2, n1, m, d1, e);
      Ok(SignNormalized(n1 * e, d1 * m))
  }

  /** The quotient a / b is cross-reduced as the product of a with the
      inverse pair (b.den, b.num). */
  lemma CrossReducedQuotient(a: Fraction, b: Fraction, g1: int, g2: int,
                             n1: int, m: int, d1: int, e: int)
    requires a.den != 0 && b.den != 0 && b.num != 0 && g1 > 0 && g2 > 0
    requires g1 == Gcd(a.num, b.num) && g2 == Gcd(b.den, a.den)
    requires n1 == a.num / g1 && m == b.num / g1 && d1 == a.den / g2 && e == b.den / g2
    requires a.num == g1 * n1 && b.num == g1 * m && a.den == g2 * d1 && b.den == g2 * e
    ensures d1 * m != 0 && Value(b) != 0.0
    ensures Value(Fraction(n1 * e, d1 * m)) == Value(a) / Value(b)
    ensures Canonical(a) && Canonical(b) ==> Gcd(n1 * e, d1 * m) == 1
  {
    CrossReducedQuotientValue(a, b, g1, g2, n1, m, d1, e);
    if Canonical(a) && Canonical(b) {
      GcdComm(b.num, b.den);
      CrossReducedCoprime(a.num, a.den, b.den, b.num, g1, g2, n1, m, e, d1);
    }
  }

  lemma CrossReducedQuotientValue(a: Fraction, b: Fraction, g1: int, g2: int,
                                  n1: int, m: int, d1: int, e: int)
    requires a.den != 0 && b.den != 0 && b.num != 0 && g1 > 0 && g2 > 0
    requires a.num == g1 * n1 && b.num == g1 * m && a.den == g2 * d1 && b.den == g2 * e
    ensures d1 * m != 0 && Value(b) != 0.0
    ensures Value(Fraction(n1 * e, d1 * m)) == Value(a) / Value(b)
  {
    InverseValue(b);
    CrossReducedValue(a, Fraction(b.den, b.num), g1, g2, n1, m, e, d1);
    TimesInverse(Value(a), Value(b));
  }

  lemma TimesInverse(x: real, y: real)
    requires y != 0.0
    ensures x * (1.0 / y) == x / y
  {
  }

  lemma InverseValue(b: Fraction)
    requires b.den != 0 && b.num != 0
    ensures Value(b) != 0.0 && Value(Fraction(b.den, b.num)) == 1.0 / Value(b)
  {
    ValueEq(b, Fraction(0, 1));
    var p, q := b.num as real, b.den as real;
    assert q / p == 1.0 / (p / q);
  }

  /** `FractionLong_true_divide`: a zero int raises; otherwise g = gcd(n, i) and
      (n/g) / (d * (i/g)) with the sign moved to the numerator. */
  function FractionLongTrueDivide(f: Fraction, i: int): (r: Result<Fraction>)
    requires f.den != 0
    ensures r.Err? <==> i == 0
    ensures r.Err? ==> r.error == ZeroDivisionError
    ensures r.Ok? ==> r.value.den > 0 && Value(r.value) == Value(f) / i as real
    ensures r.Ok? && Canonical(f) ==> Canonical(r.value)
  {
    if i == 0 then
      Err(ZeroDivisionError)
    else
      GcdQuotient(f.num, i);
      var g := Gcd(f.num, i);
      IntDivisorForm(f, i, g);
      Ok(SignNormalized(FloorDiv(f.num, g), f.den * FloorDiv(i, g)))
  }

  /** With b = i/1 the fraction quotient's cross-reduction is gcd(n, i) and 1. */
  lemma IntDivisorForm(f: Fraction, i: int, g: int)
    requires f.den != 0 && i != 0 && g == Gcd(f.num, i) && g > 0
    ensures f.den * FloorDiv(i, g) != 0
    ensures FractionsTrueDivide(f, Fraction(i, 1)) ==
            Ok(SignNormalized(FloorDiv(f.num, g), f.den * FloorDiv(i, g)))
  {
    GcdWithOne(f.den);
    assert Gcd(1, f.den) == 1;
    GcdQuotient(f.num, i);
    MulNonZero(f.den, FloorDiv(i, g));
    assert FloorDiv(f.den, 1) == f.den && FloorDiv(1, 1) == 1;
  }

  /** `LongFraction_true_divide`: a zero fraction raises; otherwise
      g = gcd(i, n) and ((i/g) * d) / (n/g) with the sign moved to the numerator. */
  function LongFractionTrueDivide(i: int, f: Fraction): (r: Result<Fraction>)
    requires f.den != 0
    ensures r.Err? <==> f.num == 0
    ensures r.Err? ==> r.error == ZeroDivisionError
    ensures r.Ok? ==> Value(f) != 0.0 && r.value.den > 0 && Value(r.value) == i as real / Value(f)
    ensures r.Ok? && Canonical(f) ==> Canonical(r.value)
  {
    if f.num == 0 then
      Err(ZeroDivisionError)
    else
      GcdQuotient(i, f.num);
      var g := Gcd(i, f.num);
      IntDividendForm(i, f, g);
      Ok(SignNormalized(FloorDiv(i, g) * f.den, FloorDiv(f.num, g)))
  }

  /** With a = i/1 the fraction quotient's cross-reduction is gcd(i, n) and 1. */
  lemma IntDividendForm(i: int, f: Fraction, g: int)
    requires f.den != 0 && f.num != 0 && g == Gcd(i, f.num) && g > 0
    ensures FloorDiv(f.num, g) != 0
    ensures FractionsTrueDivide(Fraction(i, 1), f) ==
            Ok(SignNormalized(FloorDiv(i, g) * f.den, FloorDiv(f.num, g)))
  {
    GcdWithOne(f.den);
    GcdComm(f.den, 1);
    assert Gcd(f.den, 1) == 1;
    GcdQuotient(i, f.num);
    assert FloorDiv(f.den, 1) == f.den && FloorDiv(1, 1) == 1;
  }

  /** `Fraction_true_divide`. */
  function TrueDivide(x: Operand, y: Operand): (r: Result<Fraction>)
    requires x.Frac? || y.Frac?
    requires ValidOperand(x) && ValidOperand(y)
    ensures r.Err? <==> OperandValue(y) == 0.0
    ensures r.Err? ==> r.error == ZeroDivisionError
    ensures r.Ok? ==> Canonical(r.value) && OperandValue(y) != 0.0 &&
                      Value(r.value) == OperandValue(x) / OperandValue(y)
  {
    match (x, y)
    case (Frac(a), Frac(b)) =>
      ValueEq(b, Fraction(0, 1));
      FractionsTrueDivide(a, b)
    case (Frac(a), Int(i)) => FractionLongTrueDivide(a, i)
    case (Int(i), Frac(b)) =>
      ValueEq(b, Fraction(0, 1));
      LongFractionTrueDivide(i, b)
  }

  // ---------------------------------------------------------------------------
  // Floor division
  // ---------------------------------------------------------------------------

  /** Floor division and remainder of the cross products a.num * b.den and
      b.num * a.den are those of the values of a and b. */
  lemma CrossDivMod(a: Fraction, b: Fraction)
    requires a.den != 0 && b.den != 0 && b.num != 0
    ensures b.num * a.den != 0 && a.den * b.den != 0 && Value(b) != 0.0
    ensures FloorDiv(a.num * b.den, b.num * a.den) == (Value(a) / Value(b)).Floor
    ensures Value(Fraction(FloorMod(a.num * b.den, b.num * a.den), a.den * b.den)) ==
            ModValue(Value(a), Value(b))
  {
    MulNonZero(b.num, a.den);
    CrossValues(a, b);
    DivModValues(a.num * b.den, b.num * a.den, a.den * b.den, Value(a), Value(b));
  }

  /** `Fractions_floor_divide`: cancel g1 = gcd(a.num, b.num) and
      g2 = gcd(b.den, a.den), then floor-divide the cross products.  A zero
      divisor raises (through a zero gcd or a zero divisor product). */
  function FractionsFloorDivide(a: Fraction, b: Fraction): (r: Result<int>)
    requires a.den != 0 && b.den != 0
    ensures r.Err? <==> b.num == 0
    ensures r.Err? ==> r.error == ZeroDivisionError
    ensures r.Ok? ==> Value(b) != 0.0 && r.value == (Value(a) / Value(b)).Floor
  {
    if b.num == 0 then
      Err(ZeroDivisionError)
    else
      GcdQuotient(a.num, b.num);
      GcdQuotient(b.den, a.den);
      var g1 := Gcd(a.num, b.num);
      var g2 := Gcd(b.den, a.den);
      var n1, m := FloorDiv(a.num, g1), FloorDiv(b.num, g1);
      var d1, e := FloorDiv(a.den, g2), FloorDiv(b.den, g2);
      CancelledCrossQuotient(a, b, g1, g2, n1, m, d1, e);
      CrossDivMod(a, b);
      Ok(FloorDiv(n1 * e, d1 * m))
  }

  /** Cancelling g1 * g2 > 0 from both cross products keeps the floored quotient. */
  lemma CancelledCrossQuotient(a: Fraction, b: Fraction, g1: int, g2: int,
                               n1: int, m: int, d1: int, e: int)
    requires a.den != 0 && b.den != 0 && b.num != 0 && g1 > 0 && g2 > 0
    requires a.num == g1 * n1 && b.num == g1 * m && a.den == g2 * d1 && b.den == g2 * e
    ensures d1 * m != 0 && b.num * a.den != 0
    ensures FloorDiv(n1 * e, d1 * m) == FloorDiv(a.num * b.den, b.num * a.den)
  {
    ScaledProduct(a.num, a.den, b.den, b.num, g1, g2, n1, d1, e, m);
    MulComm(b.num, a.den);
    MulPositive(g1, g2);
    MulNonZero(d1, m);
    CancelledQuotient(a.num * b.den, b.num * a.den, g1 * g2, n1 * e, d1 * m);
  }

  /** `FractionLong_floor_divide`: g = gcd(n, i), then (n/g) // (d * (i/g)). */
  function FractionLongFloorDivide(f: Fraction, i: int): (r: Result<int>)
    requires f.den != 0
    ensures r.Err? <==> i == 0
    ensures r.Err? ==> r.error == ZeroDivisionError
    ensures r.Ok? ==> r.value == (Value(f) / i as real).Floor
  {
    if i == 0 then
      Err(ZeroDivisionError)
    else
      GcdQuotient(f.num, i);
      var g := Gcd(f.num, i);
      var n1, k := FloorDiv(f.num, g), FloorDiv(i, g);
      IntDivisorQuotient(f, i, g, n1, k);
      Ok(FloorDiv(n1, f.den * k))
  }

  lemma IntDivisorQuotient(f: Fraction, i: int, g: int, n1: int, k: int)
    requires f.den != 0 && i != 0 && g > 0 && f.num == g * n1 && i == g * k
    ensures f.den * k != 0
    ensures FloorDiv(n1, f.den * k) == (Value(f) / i as real).Floor
  {
    MulNonZero(i, f.den);
    assert i * f.den == g * (f.den * k);
    CancelledQuotient(f.num, i * f.den, g, n1, f.den * k);
    IntOverDen(i, f.den);
    DivModValues(f.num, i * f.den, f.den, Value(f), i as real);
  }

  /** `LongFraction_floor_divide`: g = gcd(i, n), then ((i/g) * d) // (n/g). */
  function LongFractionFloorDivide(i: int, f: Fraction): (r: Result<int>)
    requires f.den != 0
    ensures r.Err? <==> f.num == 0
    ensures r.Err? ==> r.error == ZeroDivisionError
    ensures r.Ok? ==> Value(f) != 0.0 && r.value == (i as real / Value(f)).Floor
  {
    if f.num == 0 then
      Err(ZeroDivisionError)
    else
      GcdQuotient(i, f.num);
      var g := Gcd(i, f.num);
      var k, m := FloorDiv(i, g), FloorDiv(f.num, g);
      IntDividendQuotient(i, f, g, k, m);
      Ok(FloorDiv(k * f.den, m))
  }

  lemma IntDividendQuotient(i: int, f: Fraction, g: int, k: int, m: int)
    requires f.den != 0 && f.num != 0 && g > 0 && i == g * k && f.num == g * m
    ensures m != 0 && Value(f) != 0.0
    ensures FloorDiv(k * f.den, m) == (i as real / Value(f)).Floor
  {
    assert i * f.den == g * (k * f.den);
    CancelledQuotient(i * f.den, f.num, g, k * f.den, m);
    IntOverDen(i, f.den);
    DivModValues(i * f.den, f.num, f.den, i as real, Value(f));
  }

  /** `Fraction_floor_divide`. */
  function FloorDivide(x: Operand, y: Operand): (r: Result<int>)
    requires x.Frac? || y.Frac?
    requires ValidOperand(x) && ValidOperand(y)
    ensures r.Err? <==> OperandValue(y) == 0.0
    ensures r.Err? ==> r.error == ZeroDivisionError
    ensures r.Ok? ==> OperandValue(y) != 0.0 && r.value == (OperandValue(x) / OperandValue(y)).Floor
  {
    match (x, y)
    case (Frac(a), Frac(b)) =>
      ValueEq(b, Fraction(0, 1));
      FractionsFloorDivide(a, b)
    case (Frac(a), Int(i)) => FractionLongFloorDivide(a, i)
    case (Int(i), Frac(b)) =>
      ValueEq(b, Fraction(0, 1));
      LongFractionFloorDivide(i, b)
  }

  // ---------------------------------------------------------------------------
  // Remainder and divmod
  // ---------------------------------------------------------------------------

  /** `Fractions_remainder`: the floored remainder of the cross products, over
      the product of the denominators, reduced. */
  function FractionsRemainder(a: Fraction, b: Fraction): (r: Result<Fraction>)
    requires a.den != 0 && b.den != 0
    ensures r.Err? <==> b.num == 0
    ensures r.Err? ==> r.error == ZeroDivisionError
    ensures r.Ok? ==> Value(b) != 0.0 && r.value.den != 0 &&
                      Value(r.value) == ModValue(Value(a), Value(b))
    ensures r.Ok? && a.den > 0 && b.den > 0 ==> Canonical(r.value)
  {
    if b.num == 0 then
      Err(ZeroDivisionError)
    else
      CrossDivMod(a, b);
      SumValue(a, b);
      Ok(Reduce(FloorMod(a.num * b.den, b.num * a.den), a.den * b.den))
  }

  /** `FractionLong_remainder`: n % (i * d) over d, reduced. */
  function FractionLongRemainder(f: Fraction, i: int): (r: Result<Fraction>)
    requires f.den != 0
    ensures r.Err? <==> i == 0
    ensures r.Err? ==> r.error == ZeroDivisionError
    ensures r.Ok? ==> r.value.den != 0 && Value(r.value) == ModValue(Value(f), i as real)
    ensures r.Ok? && f.den > 0 ==> Canonical(r.value)
  {
    if i == 0 then
      Err(ZeroDivisionError)
    else
      MulNonZero(i, f.den);
      IntOverDen(i, f.den);
      DivModValues(f.num, i * f.den, f.den, Value(f), i as real);
      Ok(Reduce(FloorMod(f.num, i * f.den), f.den))
  }

  /** `LongFraction_remainder`: (i * d) % n over d, reduced. */
  function LongFractionRemainder(i: int, f: Fraction): (r: Result<Fraction>)
    requires f.den != 0
    ensures r.Err? <==> f.num == 0
    ensures r.Err? ==> r.error == ZeroDivisionError
    ensures r.Ok? ==> Value(f) != 0.0 && r.value.den != 0 &&
                      Value(r.value) == ModValue(i as real, Value(f))
    ensures r.Ok? && f.den > 0 ==> Canonical(r.value)
  {
    if f.num == 0 then
      Err(ZeroDivisionError)
    else
      IntOverDen(i, f.den);
      DivModValues(i * f.den, f.num, f.den, i as real, Value(f));
      Ok(Reduce(FloorMod(i * f.den, f.num), f.den))
  }

  /** `FractionObject_remainder`: a fraction on the left, a fraction or int on the right. */
  function FractionRemainder(a: Fraction, y: Operand): (r: Result<Fraction>)
    requires a.den != 0 && ValidOperand(y)
    ensures r.Err? <==> OperandValue(y) == 0.0
    ensures r.Err? ==> r.error == ZeroDivisionError
    ensures r.Ok? ==> OperandValue(y) != 0.0 && r.value.den != 0 &&
                      Value(r.value) == ModValue(Value(a), OperandValue(y))
    ensures r.Ok? && a.den > 0 ==> Canonical(r.value)
  {
    match y
    case Frac(b) =>
      ValueEq(b, Fraction(0, 1));
      FractionsRemainder(a, b)
    case Int(i) => FractionLongRemainder(a, i)
  }

  /** `Fraction_remainder`. */
  function Remainder(x: Operand, y: Operand): (r: Result<Fraction>)
    requires x.Frac? || y.Frac?
    requires ValidOperand(x) && ValidOperand(y)
    ensures r.Err? <==> OperandValue(y) == 0.0
    ensures r.Err? ==> r.error == ZeroDivisionError
    ensures r.Ok? ==> OperandValue(y) != 0.0 && Canonical(r.value) &&
                      Value(r.value) == ModValue(OperandValue(x), OperandValue(y))
  {
    match x
    case Frac(a) => FractionRemainder(a, y)
    case Int(i) =>
      ValueEq(y.f, Fraction(0, 1));
      LongFractionRemainder(i, y.f)
  }

  /** `Fractions_divmod`: one divmod of the cross products gives the quotient
      and the remainder's numerator. */
  function FractionsDivmod(a: Fraction, b: Fraction): (r: Result<(int, Fraction)>)
    requires a.den != 0 && b.den != 0
    ensures r.Err? <==> b.num == 0
    ensures r.Err? ==> r.error == ZeroDivisionError
    ensures r.Ok? ==> Value(b) != 0.0 && r.value.0 == (Value(a) / Value(b)).Floor &&
                      r.value.1.den != 0 && Value(r.value.1) == ModValue(Value(a), Value(b))
    ensures r.Ok? && a.den > 0 && b.den > 0 ==> Canonical(r.value.1)
  {
    if b.num == 0 then
      Err(ZeroDivisionError)
    else
      CrossDivMod(a, b);
      SumValue(a, b);
      Ok((FloorDiv(a.num * b.den, b.num * a.den),
          Reduce(FloorMod(a.num * b.den, b.num * a.den), a.den * b.den)))
  }

  /** `FractionLong_divmod`: divmod(n, i * d), the remainder over d. */
  function FractionLongDivmod(f: Fraction, i: int): (r: Result<(int, Fraction)>)
    requires f.den != 0
    ensures r.Err? <==> i == 0
    ensures r.Err? ==> r.error == ZeroDivisionError
    ensures r.Ok? ==> r.value.0 == (Value(f) / i as real).Floor &&
                      r.value.1.den != 0 && Value(r.value.1) == ModValue(Value(f), i as real)
    ensures r.Ok? && f.den > 0 ==> Canonical(r.value.1)
  {
    if i == 0 then
      Err(ZeroDivisionError)
    else
      MulNonZero(i, f.den);
      IntOverDen(i, f.den);
      DivModValues(f.num, i * f.den, f.den, Value(f), i as real);
      Ok((FloorDiv(f.num, i * f.den), Reduce(FloorMod(f.num, i * f.den), f.den)))
  }

  /** `LongFraction_divmod`: divmod(i * d, n), the remainder over d. */
  function LongFractionDivmod(i: int, f: Fraction): (r: Result<(int, Fraction)>)
    requires f.den != 0
    ensures r.Err? <==> f.num == 0
    ensures r.Err? ==> r.error == ZeroDivisionError
    ensures r.Ok? ==> Value(f) != 0.0 && r.value.0 == (i as real / Value(f)).Floor &&
                      r.value.1.den != 0 && Value(r.value.1) == ModValue(i as real, Value(f))
    ensures r.Ok? && f.den > 0 ==> Canonical(r.value.1)
  {
    if f.num == 0 then
      Err(ZeroDivisionError)
    else
      IntOverDen(i, f.den);
      DivModValues(i * f.den, f.num, f.den, i as real, Value(f));
      Ok((FloorDiv(i * f.den, f.num), Reduce(FloorMod(i * f.den, f.num), f.den)))
  }

  /** `Fraction_divmod`. */
  function Divmod(x: Operand, y: Operand): (r: Result<(int, Fraction)>)
    requires x.Frac? || y.Frac?
    requires ValidOperand(x) && ValidOperand(y)
    ensures r.Err? <==> OperandValue(y) == 0.0
    ensures r.Err? ==> r.error == ZeroDivisionError
    ensures r.Ok? ==> OperandValue(y) != 0.0 &&
                      r.value.0 == (OperandValue(x) / OperandValue(y)).Floor &&
                      Canonical(r.value.1) &&
                      Value(r.value.1) == ModValue(OperandValue(x), OperandValue(y))
  {
    match (x, y)
    case (Frac(a), Frac(b)) =>
      ValueEq(b, Fraction(0, 1));
      FractionsDivmod(a, b)
    case (Frac(a), Int(i)) => FractionLongDivmod(a, i)
    case (Int(i), Frac(b)) =>
      ValueEq(b, Fraction(0, 1));
      LongFractionDivmod(i, b)
  }
}
