/** `pow(base, exponent[, modulo])` with a fraction among the arguments.
    Whole exponents are computed exactly; a non-whole exponent (and an
    integer base raised to a negative integer with a fractional modulus)
    goes through the host's floating point, which is outside this model and
    shows up as `Inexact`. */
module Powers {
  import opened IntegerMath
  import opened Fractions
  import opened Arithmetic

  /** The optional third argument of `pow`. */
  datatype Modulo = NoModulo | By(m: Operand)

  /** What a power call produces.  `Nested(inner)` is the object the
      integer-base path builds when the modulus is a fraction: a fraction
      whose numerator slot holds the fraction `inner` and whose denominator
      is 1. */
  datatype PowerResult =
    | Exact(f: Fraction)
    | PowerError(error: Error)
    | Inexact
    | Nested(inner: Fraction)

  predicate ValidModulo(modulo: Modulo)
  {
    modulo.By? ==> ValidOperand(modulo.m)
  }

  predicate ZeroModulus(modulo: Modulo)
    requires ValidModulo(modulo)
  {
    modulo.By? && OperandValue(modulo.m) == 0.0
  }

  // ---------------------------------------------------------------------------
  // Real reference definitions
  // ---------------------------------------------------------------------------

  function RealPow(x: real, e: nat): real
  {
    if e == 0 then 1.0 else x * RealPow(x, e - 1)
  }

  /** x raised to an integer exponent; a negative exponent inverts first. */
  function ExactPower(x: real, e: int): real
    requires e < 0 ==> x != 0.0
  {
    if e >= 0 then RealPow(x, e) else RealPow(1.0 / x, -e)
  }

  /** A value after the optional modulus has been applied. */
  function Reduced(v: real, modulo: Modulo): real
    requires ValidModulo(modulo) && !ZeroModulus(modulo)
  {
    match modulo
    case NoModulo => v
    case By(m) => ModValue(v, OperandValue(m))
  }

  lemma {:induction false} RealPowAdd(x: real, e1: nat, e2: nat)
    ensures RealPow(x, e1 + e2) == RealPow(x, e1) * RealPow(x, e2)
  {
    if e1 > 0 {
      RealPowAdd(x, e1 - 1, e2);
    }
  }

  lemma {:induction false} RealPowInverse(x: real, e: nat)
    requires x != 0.0
    ensures RealPow(x, e) * RealPow(1.0 / x, e) == 1.0
  {
    if e > 0 {
      RealPowInverse(x, e - 1);
      var a, b := RealPow(x, e - 1), RealPow(1.0 / x, e - 1);
      assert (x * a) * ((1.0 / x) * b) == (x * (1.0 / x)) * (a * b);
    }
  }

  /** The value of the componentwise power is the power of the value. */
  lemma {:induction false} PowValue(f: Fraction, e: nat)
    requires f.den != 0
    ensures Pow(f.den, e) != 0
    ensures Value(Fraction(Pow(f.num, e), Pow(f.den, e))) == RealPow(Value(f), e)
  {
    PowNonZero(f.den, e);
    if e > 0 {
      PowValue(f, e - 1);
      ProductValue(f, Fraction(Pow(f.num, e - 1), Pow(f.den, e - 1)));
    }
  }

  lemma IntPowValue(i: int, e: nat)
    ensures Pow(i, e) as real == RealPow(i as real, e)
  {
    PowOne(e);
    PowValue(Fraction(i, 1), e);
  }

  // ---------------------------------------------------------------------------
  // Building blocks
  // ---------------------------------------------------------------------------

  function Lift(r: Result<Fraction>): PowerResult
  {
    match r
    case Ok(f) => Exact(f)
    case Err(e) => PowerError(e)
  }

  /** The raw power with the optional modulus applied through the
      fraction remainder. */
  function ApplyModulo(raw: Fraction, modulo: Modulo): (r: PowerResult)
    requires raw.den != 0 && ValidModulo(modulo)
    ensures r.Exact? || r.PowerError?
    ensures r.PowerError? <==> ZeroModulus(modulo)
    ensures r.PowerError? ==> r.error == ZeroDivisionError
    ensures r.Exact? ==> r.f.den != 0 && Value(r.f) == Reduced(Value(raw), modulo)
    ensures r.Exact? && modulo.By? && raw.den > 0 ==> Canonical(r.f)
    ensures modulo.NoModulo? ==> r == Exact(raw)
  {
    match modulo
    case NoModulo => Exact(raw)
    case By(m) => Lift(FractionRemainder(raw, m))
  }

  /** The integral branch: `pow(n, e[, m])` on integers, over 1. */
  function IntegerPower(n: int, e: nat, modulo: Modulo): (r: PowerResult)
    requires modulo.NoModulo? || modulo.m.Int?
    ensures r.Exact? || r.PowerError?
    ensures r.PowerError? <==> modulo == By(Int(0))
    ensures r.PowerError? ==> r.error == ValueError
    ensures r.Exact? ==> Canonical(r.f) && Value(r.f) == Reduced(RealPow(n as real, e), modulo)
  {
    var p := Pow(n, e);
    IntPowValue(n, e);
    match modulo
    case NoModulo => Exact(OfInt(p))
    case By(m) =>
      if m.i == 0 then
        PowerError(ValueError)
      else
        DivModValues(p, m.i, 1, p as real, m.i as real);
        GcdWithOne(FloorMod(p, m.i));
        Exact(Fraction(FloorMod(p, m.i), 1))
  }

  // ---------------------------------------------------------------------------
  // Fraction base
  // ---------------------------------------------------------------------------

  /** `FractionLong_power`: a fraction raised to an integer.  A negative
      exponent inverts the base (signs normalised) and recurses; an integral
      base with no modulus or an integer modulus uses integer `pow`;
      otherwise both components are raised and the modulus applied by
      remainder. */
  function FractionLongPower(f: Fraction, e: int, modulo: Modulo): (r: PowerResult)
    requires Canonical(f) && ValidModulo(modulo)
    decreases if e < 0 then 1 else 0
    ensures r.Exact? || r.PowerError?
    ensures r.PowerError? <==> (e < 0 && f.num == 0) || ZeroModulus(modulo)
    ensures e < 0 && f.num == 0 ==> r == PowerError(ZeroDivisionError)
    ensures e >= 0 && modulo == By(Int(0)) ==>
              r == PowerError(if f.den == 1 then ValueError else ZeroDivisionError)
    ensures e < 0 && f.num != 0 && modulo == By(Int(0)) ==>
              r == PowerError(if Abs(f.num) == 1 then ValueError else ZeroDivisionError)
    ensures r.PowerError? && modulo != By(Int(0)) ==> r.error == ZeroDivisionError
    ensures r.Exact? ==> Canonical(r.f) && (e < 0 ==> Value(f) != 0.0) &&
                         Value(r.f) == Reduced(ExactPower(Value(f), e), modulo)
  {
    if e < 0 then
      if f.num == 0 then
        PowerError(ZeroDivisionError)
      else
        GcdComm(f.den, f.num);
        InverseValue(f);
        FractionLongPower(SignNormalized(f.den, f.num), -e, modulo)
    else if f.den == 1 && (modulo.NoModulo? || modulo.m.Int?) then
      assert Value(f) == f.num as real;
      IntegerPower(f.num, e, modulo)
    else
      PowValue(f, e);
      PowCoprime(f.num, f.den, e);
      PowPositive(f.den, e);
      ApplyModulo(Fraction(Pow(f.num, e), Pow(f.den, e)), modulo)
  }

  /** `Fractions_power`: a whole exponent goes to `FractionLongPower`. */
  function FractionsPower(a: Fraction, b: Fraction, modulo: Modulo): (r: PowerResult)
    requires Canonical(a) && Canonical(b) && ValidModulo(modulo)
    ensures r.Inexact? <==> b.den != 1
    ensures r.PowerError? <==> b.den == 1 && ((b.num < 0 && a.num == 0) || ZeroModulus(modulo))
    ensures r.Exact? ==> Canonical(r.f) && b.den == 1 && (b.num < 0 ==> Value(a) != 0.0) &&
                         Value(r.f) == Reduced(ExactPower(Value(a), b.num), modulo)
  {
    if b.den == 1 then FractionLongPower(a, b.num, modulo) else Inexact
  }

  // ---------------------------------------------------------------------------
  // Integer base, fraction exponent
  // ---------------------------------------------------------------------------

  /** `LongFraction_power` as the source writes it.  A negative whole
      exponent builds 1 / base^|e| without normalising the sign, and a
      non-negative one with a fractional modulus wraps the remainder as the
      numerator of a new fraction. */
  function LongFractionPowerAsWritten(i: int, g: Fraction, modulo: Modulo): (r: PowerResult)
    requires Canonical(g) && ValidModulo(modulo)
    ensures r.Inexact? <==> g.den != 1
    ensures r.Nested? <==> g.den == 1 && g.num >= 0 && modulo.By? && modulo.m.Frac? &&
                           modulo.m.f.num != 0
    ensures r.PowerError? <==> g.den == 1 && ((g.num < 0 && i == 0) || ZeroModulus(modulo))
    ensures r.Exact? ==> r.f.den != 0 && (g.num < 0 ==> i != 0) &&
                         Value(r.f) == Reduced(ExactPower(i as real, g.num), modulo)
    ensures r.Nested? ==> r.inner.den != 0 &&
                          Value(r.inner) == Reduced(ExactPower(i as real, g.num), modulo)
  {
    if g.den != 1 then
      Inexact
    else if g.num < 0 then
      if i == 0 then
        PowerError(ZeroDivisionError)
      else
        var k := -g.num;
        PowNonZero(i, k);
        IntPowValue(i, k);
        InverseValue(Fraction(Pow(i, k), 1));
        RealPowInverse(i as real, k);
        assert RealPow(1.0 / (i as real), k) == 1.0 / RealPow(i as real, k);
        ApplyModulo(Fraction(1, Pow(i, k)), modulo)
    else
      var p := Pow(i, g.num);
      match modulo
      case NoModulo => IntegerPower(i, g.num, modulo)
      case By(Int(_)) => IntegerPower(i, g.num, modulo)
      case By(Frac(h)) =>
        IntPowValue(i, g.num);
        ValueEq(h, Fraction(0, 1));
        match LongFractionRemainder(p, h)
        case Ok(x) => Nested(x)
        case Err(e) => PowerError(e)
  }

  /** The sign is left negative: (-2) ** (-1/1) comes out as 1/(-2). */
  lemma NegativeBaseCounterexample()
    ensures LongFractionPowerAsWritten(-2, Fraction(-1, 1), NoModulo) == Exact(Fraction(1, -2))
    ensures !Canonical(Fraction(1, -2))
  {
    assert Pow(-2, 1) == -2;
  }

  /** pow(2, 1/1, 3/2) yields a fraction whose numerator is the fraction 1/2. */
  lemma FractionModulusCounterexample()
    ensures LongFractionPowerAsWritten(2, Fraction(1, 1), By(Frac(Fraction(3, 2)))) ==
            Nested(Fraction(1, 2))
  {
    assert Pow(2, 1) == 2;
    assert FloorMod(4, 3) == 1;
    assert Gcd(1, 2) == 1 by {
      GcdWithOne(2);
      GcdComm(1, 2);
    }
  }

  /** `LongFraction_power` as evidently intended: the base taken as the
      fraction i/1, so the result is canonical and always a plain fraction. */
  function LongFractionPower(i: int, g: Fraction, modulo: Modulo): (r: PowerResult)
    requires Canonical(g) && ValidModulo(modulo)
    ensures r.Inexact? <==> g.den != 1
    ensures !r.Nested?
    ensures r.PowerError? <==> g.den == 1 && ((g.num < 0 && i == 0) || ZeroModulus(modulo))
    ensures r.Exact? ==> Canonical(r.f) && (g.num < 0 ==> i != 0) &&
                         Value(r.f) == Reduced(ExactPower(i as real, g.num), modulo)
  {
    if g.den != 1 then Inexact else FractionLongPower(OfInt(i), g.num, modulo)
  }

  /** The corrected form agrees with the source wherever the source gives a
      plain fraction: same outcome kind and the same value. */
  lemma CorrectedPowerAgrees(i: int, g: Fraction, modulo: Modulo)
    requires Canonical(g) && ValidModulo(modulo)
    ensures LongFractionPowerAsWritten(i, g, modulo).Exact? ==>
              LongFractionPower(i, g, modulo).Exact? &&
              Value(LongFractionPowerAsWritten(i, g, modulo).f) ==
              Value(LongFractionPower(i, g, modulo).f)
    ensures LongFractionPowerAsWritten(i, g, modulo).Nested? ==>
              LongFractionPower(i, g, modulo).Exact? &&
              Value(LongFractionPowerAsWritten(i, g, modulo).inner) ==
              Value(LongFractionPower(i, g, modulo).f)
    ensures LongFractionPowerAsWritten(i, g, modulo).PowerError? <==>
              LongFractionPower(i, g, modulo).PowerError?
  {
  }

  // ---------------------------------------------------------------------------
  // The `pow` slot
  // ---------------------------------------------------------------------------

  predicate IntegralExponent(y: Operand)
  {
    y.Int? || y.f.den == 1
  }

  function ExponentOf(y: Operand): int
    requires IntegralExponent(y)
  {
    if y.Int? then y.i else y.f.num
  }

  /** `Fraction_power`: dispatch on which arguments are fractions.  With two
      integers the modulus is the fraction: the integer power is reduced by
      it. */
  function Power(x: Operand, y: Operand, modulo: Modulo): (r: PowerResult)
    requires x.Frac? || y.Frac? || (modulo.By? && modulo.m.Frac?)
    requires ValidOperand(x) && ValidOperand(y) && ValidModulo(modulo)
    ensures !r.Nested?
    ensures r.Inexact? <==> !IntegralExponent(y) ||
                            (x.Int? && y.Int? && y.i < 0 && x.i != 0)
    ensures r.PowerError? <==>
              IntegralExponent(y) && ((ExponentOf(y) < 0 && OperandValue(x) == 0.0) ||
                                      (!(x.Int? && y.Int? && y.i < 0) && ZeroModulus(modulo)))
    ensures r.Exact? ==> Canonical(r.f) && IntegralExponent(y) &&
                         (ExponentOf(y) < 0 ==> OperandValue(x) != 0.0) &&
                         Value(r.f) == Reduced(ExactPower(OperandValue(x), ExponentOf(y)), modulo)
  {
    match (x, y)
    case (Frac(a), Frac(b)) => FractionsPower(a, b, modulo)
    case (Frac(a), Int(e)) => FractionLongPower(a, e, modulo)
    case (Int(i), Frac(b)) => LongFractionPower(i, b, modulo)
    case (Int(i), Int(e)) =>
      var h := modulo.m.f;
      if e < 0 then
        if i == 0 then PowerError(ZeroDivisionError) else Inexact
      else
        IntPowValue(i, e);
        ValueEq(h, Fraction(0, 1));
        Lift(LongFractionRemainder(Pow(i, e), h))
  }

  // ---------------------------------------------------------------------------
  // Laws
  // ---------------------------------------------------------------------------

  lemma PowerOne(f: Fraction)
    requires Canonical(f)
    ensures FractionLongPower(f, 1, NoModulo) == Exact(f)
  {
    var r := FractionLongPower(f, 1, NoModulo);
    assert RealPow(Value(f), 1) == Value(f) * RealPow(Value(f), 0);
    CanonicalUnique(r.f, f);
  }

  lemma PowerZero(f: Fraction)
    requires Canonical(f)
    ensures FractionLongPower(f, 0, NoModulo) == Exact(Fraction(1, 1))
  {
    GcdWithOne(1);
    CanonicalUnique(FractionLongPower(f, 0, NoModulo).f, Fraction(1, 1));
  }

  /** x**(e1 + e2) == x**e1 * x**e2 for any integer exponents of a nonzero
      base, and for non-negative exponents of any base. */
  lemma PowerAdd(f: Fraction, e1: int, e2: int)
    requires Canonical(f) && (f.num != 0 || (e1 >= 0 && e2 >= 0))
    ensures FractionLongPower(f, e1, NoModulo).Exact?
    ensures FractionLongPower(f, e2, NoModulo).Exact?
    ensures FractionsMultiply(FractionLongPower(f, e1, NoModulo).f,
                              FractionLongPower(f, e2, NoModulo).f) ==
            FractionLongPower(f, e1 + e2, NoModulo).f
  {
    ValueEq(f, Fraction(0, 1));
    ExactPowerAdd(Value(f), e1, e2);
    CanonicalUnique(FractionsMultiply(FractionLongPower(f, e1, NoModulo).f,
                                      FractionLongPower(f, e2, NoModulo).f),
                    FractionLongPower(f, e1 + e2, NoModulo).f);
  }

  /** The exponent law on the real reference. */
  lemma ExactPowerAdd(x: real, e1: int, e2: int)
    requires x != 0.0 || (e1 >= 0 && e2 >= 0)
    ensures ExactPower(x, e1 + e2) == ExactPower(x, e1) * ExactPower(x, e2)
  {
    if e1 >= 0 && e2 >= 0 {
      RealPowAdd(x, e1, e2);
    } else if e1 < 0 && e2 < 0 {
      NegativePowerAdd(x, -e1, -e2);
    } else if e1 >= 0 {
      MixedPowerAdd(x, e1, -e2);
    } else {
      MixedPowerAdd(x, e2, -e1);
      MulCommReal(RealPow(x, e2), RealPow(1.0 / x, -e1));
    }
  }

  lemma MulCommReal(u: real, v: real)
    ensures u * v == v * u
  {
  }

  /** x**(-a) * x**(-b) == x**(-(a + b)) for a nonzero base. */
  lemma NegativePowerAdd(x: real, a: nat, b: nat)
    requires x != 0.0 && a > 0 && b > 0
    ensures ExactPower(x, -(a as int + b)) == ExactPower(x, -(a as int)) * ExactPower(x, -(b as int))
  {
    RealPowAdd(1.0 / x, a, b);
  }

  /** x**a * x**(-b) == x**(a - b) for a nonzero base. */
  lemma MixedPowerAdd(x: real, a: nat, b: nat)
    requires x != 0.0
    ensures ExactPower(x, a as int - b) == RealPow(x, a) * RealPow(1.0 / x, b)
  {
    if a >= b {
      LargerPositive(x, a - b, b);
    } else {
      LargerNegative(x, a, b - a);
    }
  }

  /** x**(c + b) * x**(-b) == x**c. */
  lemma LargerPositive(x: real, c: nat, b: nat)
    requires x != 0.0
    ensures RealPow(x, c + b) * RealPow(1.0 / x, b) == RealPow(x, c)
  {
    RealPowAdd(x, c, b);
    RealPowInverse(x, b);
    CancelPair(RealPow(x, c), RealPow(x, b), RealPow(1.0 / x, b));
  }

  /** x**a * x**(-(c + a)) == x**(-c). */
  lemma LargerNegative(x: real, a: nat, c: nat)
    requires x != 0.0
    ensures RealPow(x, a) * RealPow(1.0 / x, c + a) == RealPow(1.0 / x, c)
  {
    RealPowAdd(1.0 / x, c, a);
    RealPowInverse(x, a);
    CancelPair(RealPow(1.0 / x, c), RealPow(1.0 / x, a), RealPow(x, a));
  }

  /** Regrouping u * (v * w) with v * w == 1. */
  lemma CancelPair(u: real, v: real, w: real)
    requires v * w == 1.0 || w * v == 1.0
    ensures (u * v) * w == u && w * (u * v) == u && u * v * w == u
  {
    assert (u * v) * w == u * (v * w);
  }

  /** x**e * x**(-e) == 1 for a nonzero base. */
  lemma PowerInverse(f: Fraction, e: nat)
    requires Canonical(f) && f.num != 0
    ensures FractionsMultiply(FractionLongPower(f, e, NoModulo).f,
                              FractionLongPower(f, -(e as int), NoModulo).f) == Fraction(1, 1)
  {
    ValueEq(f, Fraction(0, 1));
    if e > 0 {
      RealPowInverse(Value(f), e);
    }
    GcdWithOne(1);
    CanonicalUnique(FractionsMultiply(FractionLongPower(f, e, NoModulo).f,
                                      FractionLongPower(f, -(e as int), NoModulo).f),
                    Fraction(1, 1));
  }
}
