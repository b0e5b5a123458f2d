/** Algebraic laws of the engine's arithmetic.  Each law follows from the
    operations' value contracts and the fact that a canonical fraction is
    determined by its value. */
module ArithmeticLaws {
  import opened IntegerMath
  import opened Fractions
  import opened Arithmetic

  const Zero := Fraction(0, 1)
  const One := Fraction(1, 1)

  lemma AddCommutative(a: Fraction, b: Fraction)
    requires Canonical(a) && Canonical(b)
    ensures FractionsAdd(a, b) == FractionsAdd(b, a)
  {
    CanonicalUnique(FractionsAdd(a, b), FractionsAdd(b, a));
  }

  lemma AddAssociative(a: Fraction, b: Fraction, c: Fraction)
    requires Canonical(a) && Canonical(b) && Canonical(c)
    ensures FractionsAdd(FractionsAdd(a, b), c) == FractionsAdd(a, FractionsAdd(b, c))
  {
    CanonicalUnique(FractionsAdd(FractionsAdd(a, b), c), FractionsAdd(a, FractionsAdd(b, c)));
  }

  /** 0/1 is the neutral element of addition. */
  lemma AddZero(a: Fraction)
    requires Canonical(a)
    ensures FractionsAdd(a, Zero) == a && FractionsAdd(Zero, a) == a
  {
    CanonicalUnique(FractionsAdd(a, Zero), a);
    CanonicalUnique(FractionsAdd(Zero, a), a);
  }

  /** a - a is 0/1. */
  lemma SubtractSelf(a: Fraction)
    requires Canonical(a)
    ensures FractionsSubtract(a, a) == Zero
  {
    GcdWithOne(0);
    CanonicalUnique(FractionsSubtract(a, a), Zero);
  }

  /** Subtraction is addition of the negation. */
  lemma SubtractIsAddNegative(a: Fraction, b: Fraction)
    requires Canonical(a) && Canonical(b)
    ensures FractionsSubtract(a, b) == FractionsAdd(a, Negative(b))
  {
    CanonicalUnique(FractionsSubtract(a, b), FractionsAdd(a, Negative(b)));
  }

  lemma MultiplyCommutative(a: Fraction, b: Fraction)
    requires Canonical(a) && Canonical(b)
    ensures FractionsMultiply(a, b) == FractionsMultiply(b, a)
  {
    CanonicalUnique(FractionsMultiply(a, b), FractionsMultiply(b, a));
  }

  lemma MultiplyAssociative(a: Fraction, b: Fraction, c: Fraction)
    requires Canonical(a) && Canonical(b) && Canonical(c)
    ensures FractionsMultiply(FractionsMultiply(a, b), c) ==
            FractionsMultiply(a, FractionsMultiply(b, c))
  {
    var l := FractionsMultiply(FractionsMultiply(a, b), c);
    var r := FractionsMultiply(a, FractionsMultiply(b, c));
    assert Value(l) == (Value(a) * Value(b)) * Value(c);
    assert Value(r) == Value(a) * (Value(b) * Value(c));
    CanonicalUnique(l, r);
  }

  /** 0/1 absorbs: the cross-reduced product with zero is exactly 0/1. */
  lemma MultiplyZero(a: Fraction)
    requires Canonical(a)
    ensures FractionsMultiply(a, Zero) == Zero && FractionsMultiply(Zero, a) == Zero
  {
    GcdWithOne(0);
    CanonicalUnique(FractionsMultiply(a, Zero), Zero);
    CanonicalUnique(FractionsMultiply(Zero, a), Zero);
  }

  lemma MultiplyOne(a: Fraction)
    requires Canonical(a)
    ensures FractionsMultiply(a, One) == a && FractionsMultiply(One, a) == a
  {
    GcdWithOne(1);
    CanonicalUnique(FractionsMultiply(a, One), a);
    CanonicalUnique(FractionsMultiply(One, a), a);
  }

  /** Multiplying a quotient back by the divisor gives the dividend. */
  lemma DivideThenMultiply(a: Fraction, b: Fraction)
    requires Canonical(a) && Canonical(b) && b.num != 0
    ensures FractionsTrueDivide(a, b).Ok?
    ensures FractionsMultiply(FractionsTrueDivide(a, b).value, b) == a
  {
    var q := FractionsTrueDivide(a, b).value;
    assert Value(q) * Value(b) == Value(a);
    CanonicalUnique(FractionsMultiply(q, b), a);
  }

  /** Multiplication distributes over addition. */
  lemma MultiplyDistributes(a: Fraction, b: Fraction, c: Fraction)
    requires Canonical(a) && Canonical(b) && Canonical(c)
    ensures FractionsMultiply(a, FractionsAdd(b, c)) ==
            FractionsAdd(FractionsMultiply(a, b), FractionsMultiply(a, c))
  {
    var l := FractionsMultiply(a, FractionsAdd(b, c));
    var r := FractionsAdd(FractionsMultiply(a, b), FractionsMultiply(a, c));
    assert Value(l) == Value(a) * (Value(b) + Value(c));
    assert Value(r) == Value(a) * Value(b) + Value(a) * Value(c);
    CanonicalUnique(l, r);
  }

  // ---------------------------------------------------------------------------
  // Integer operands behave as n/1
  // ---------------------------------------------------------------------------

  /** Every mixed form of add, subtract and multiply gives what the
      fraction-fraction form gives on the integer's fraction i/1. */
  lemma MixedAgreesWithFractions(x: Operand, y: Operand)
    requires x.Frac? || y.Frac?
    requires ValidOperand(x) && ValidOperand(y)
    ensures Add(x, y) == FractionsAdd(AsFraction(x), AsFraction(y))
    ensures Subtract(x, y) == FractionsSubtract(AsFraction(x), AsFraction(y))
    ensures Multiply(x, y) == FractionsMultiply(AsFraction(x), AsFraction(y))
  {
    MixedAddAgrees(x, y);
    MixedSubtractAgrees(x, y);
    MixedMultiplyAgrees(x, y);
  }

  lemma MixedAddAgrees(x: Operand, y: Operand)
    requires x.Frac? || y.Frac?
    requires ValidOperand(x) && ValidOperand(y)
    ensures Add(x, y) == FractionsAdd(AsFraction(x), AsFraction(y))
  {
    CanonicalUnique(Add(x, y), FractionsAdd(AsFraction(x), AsFraction(y)));
  }

  lemma MixedSubtractAgrees(x: Operand, y: Operand)
    requires x.Frac? || y.Frac?
    requires ValidOperand(x) && ValidOperand(y)
    ensures Subtract(x, y) == FractionsSubtract(AsFraction(x), AsFraction(y))
  {
    CanonicalUnique(Subtract(x, y), FractionsSubtract(AsFraction(x), AsFraction(y)));
  }

  lemma MixedMultiplyAgrees(x: Operand, y: Operand)
    requires x.Frac? || y.Frac?
    requires ValidOperand(x) && ValidOperand(y)
    ensures Multiply(x, y) == FractionsMultiply(AsFraction(x), AsFraction(y))
  {
    CanonicalUnique(Multiply(x, y), FractionsMultiply(AsFraction(x), AsFraction(y)));
  }

  /** The same for true division, floor division and remainder, errors included. */
  lemma MixedDivisionAgreesWithFractions(x: Operand, y: Operand)
    requires x.Frac? || y.Frac?
    requires ValidOperand(x) && ValidOperand(y)
    ensures TrueDivide(x, y) == FractionsTrueDivide(AsFraction(x), AsFraction(y))
    ensures FloorDivide(x, y) == FractionsFloorDivide(AsFraction(x), AsFraction(y))
    ensures Remainder(x, y) == FractionsRemainder(AsFraction(x), AsFraction(y))
  {
    var a, b := AsFraction(x), AsFraction(y);
    ValueEq(b, Zero);
    var q := TrueDivide(x, y);
    if q.Ok? {
      CanonicalUnique(q.value, FractionsTrueDivide(a, b).value);
      CanonicalUnique(Remainder(x, y).value, FractionsRemainder(a, b).value);
    }
  }

  // ---------------------------------------------------------------------------
  // Floor division, remainder and divmod
  // ---------------------------------------------------------------------------

  /** The division law on fractions: a == (a // b) * b + a % b, with the
      remainder strictly between 0 and b on b's side (or zero). */
  lemma FractionDivisionLaw(a: Fraction, b: Fraction)
    requires Canonical(a) && Canonical(b) && b.num != 0
    ensures FractionsFloorDivide(a, b).Ok? && FractionsRemainder(a, b).Ok?
    ensures Value(a) == FractionsFloorDivide(a, b).value as real * Value(b) +
                        Value(FractionsRemainder(a, b).value)
    ensures Value(b) > 0.0 ==> 0.0 <= Value(FractionsRemainder(a, b).value) < Value(b)
    ensures Value(b) < 0.0 ==> Value(b) < Value(FractionsRemainder(a, b).value) <= 0.0
  {
    var q, r := FractionsFloorDivide(a, b), FractionsRemainder(a, b);
    RealDivision(Value(a), Value(b), q.value, Value(r.value));
  }

  /** The division law for every operand combination of the dispatchers. */
  lemma FloorModLaw(x: Operand, y: Operand)
    requires x.Frac? || y.Frac?
    requires ValidOperand(x) && ValidOperand(y)
    requires OperandValue(y) != 0.0
    ensures FloorDivide(x, y).Ok? && Remainder(x, y).Ok?
    ensures OperandValue(x) ==
            FloorDivide(x, y).value as real * OperandValue(y) + Value(Remainder(x, y).value)
    ensures OperandValue(y) > 0.0 ==> 0.0 <= Value(Remainder(x, y).value) < OperandValue(y)
    ensures OperandValue(y) < 0.0 ==> OperandValue(y) < Value(Remainder(x, y).value) <= 0.0
  {
    var a, b := AsFraction(x), AsFraction(y);
    ValueEq(b, Zero);
    MixedDivisionAgreesWithFractions(x, y);
    FractionDivisionLaw(a, b);
  }

  /** The real form of the division law. */
  lemma RealDivision(u: real, v: real, q: int, m: real)
    requires v != 0.0 && q == (u / v).Floor && m == ModValue(u, v)
    ensures u == q as real * v + m
    ensures v > 0.0 ==> 0.0 <= m < v
    ensures v < 0.0 ==> v < m <= 0.0
  {
    ModValueRange(u, v);
  }

  /** divmod is the pair (floor division, remainder). */
  lemma DivmodIsFloorDivideAndRemainder(x: Operand, y: Operand)
    requires x.Frac? || y.Frac?
    requires ValidOperand(x) && ValidOperand(y)
    ensures Divmod(x, y).Err? <==> FloorDivide(x, y).Err?
    ensures Divmod(x, y).Err? ==> Remainder(x, y).Err?
    ensures Divmod(x, y).Ok? ==>
              Divmod(x, y).value == (FloorDivide(x, y).value, Remainder(x, y).value)
  {
    match (x, y)
    case (Frac(a), Frac(b)) =>
      if b.num != 0 {
        CrossDivMod(a, b);
      }
    case (Frac(a), Int(i)) =>
      if i != 0 {
        MulNonZero(i, a.den);
        IntOverDen(i, a.den);
        DivModValues(a.num, i * a.den, a.den, Value(a), i as real);
      }
    case (Int(i), Frac(b)) =>
      if b.num != 0 {
        IntOverDen(i, b.den);
        DivModValues(i * b.den, b.num, b.den, i as real, Value(b));
      }
  }
}
