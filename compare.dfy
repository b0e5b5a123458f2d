/** Rich comparison of a fraction with a fraction or an integer.  Equality
    compares the components; the orderings compare cross products. */
module Comparison {
  import opened IntegerMath
  import opened Fractions

  datatype CompareOp = Lt | Le | Eq | Ne | Gt | Ge

  function IntCompare(x: int, y: int, op: CompareOp): bool
  {
    match op
    case Lt => x < y
    case Le => x <= y
    case Eq => x == y
    case Ne => x != y
    case Gt => x > y
    case Ge => x >= y
  }

  /** The reference: the comparison of the exact values. */
  function RealCompare(x: real, y: real, op: CompareOp): bool
  {
    match op
    case Lt => x < y
    case Le => x <= y
    case Eq => x == y
    case Ne => x != y
    case Gt => x > y
    case Ge => x >= y
  }

  /** For canonical fractions the cross products order the values, and
      equal values mean equal components. */
  lemma CrossOrder(a: Fraction, b: Fraction)
    ensures Canonical(a) && Canonical(b) ==>
              (Value(a) <= Value(b) <==> a.num * b.den <= b.num * a.den) &&
              (Value(b) <= Value(a) <==> b.num * a.den <= a.num * b.den) &&
              (Value(a) == Value(b) <==> a == b)
  {
    if Canonical(a) && Canonical(b) {
      ValueLe(a, b);
      ValueLe(b, a);
      if Value(a) == Value(b) {
        CanonicalUnique(a, b);
      }
    }
  }

  /** `Fractions_richcompare`. */
  function FractionsRichCompare(a: Fraction, b: Fraction, op: CompareOp): (r: bool)
    ensures Canonical(a) && Canonical(b) ==> r == RealCompare(Value(a), Value(b), op)
  {
    CrossOrder(a, b);
    match op
    case Eq => a.num == b.num && a.den == b.den
    case Ne => a.num != b.num || a.den != b.den
    case _ => IntCompare(a.num * b.den, b.num * a.den, op)
  }

  /** The integer branch of `Fraction_richcompare`: equality asks for an
      integral fraction with that numerator; the orderings compare the
      numerator with the integer scaled by the denominator. */
  function FractionLongRichCompare(f: Fraction, i: int, op: CompareOp): (r: bool)
    ensures Canonical(f) ==> r == RealCompare(Value(f), i as real, op)
  {
    CrossOrder(f, OfInt(i));
    match op
    case Eq => f.den == 1 && f.num == i
    case Ne => f.den != 1 || f.num != i
    case _ => IntCompare(f.num, i * f.den, op)
  }

  /** `Fraction_richcompare` with a fraction on the left (a reflected
      comparison reaches it with the operator mirrored). */
  function RichCompare(a: Fraction, y: Operand, op: CompareOp): (r: bool)
    requires Canonical(a) && (y.Frac? ==> Canonical(y.f))
    ensures r == RealCompare(Value(a), OperandValue(y), op)
  {
    match y
    case Frac(b) => FractionsRichCompare(a, b, op)
    case Int(i) => FractionLongRichCompare(a, i, op)
  }

  /** Comparing with an integer is comparing with its fraction i/1. */
  lemma IntegerComparisonAgrees(f: Fraction, i: int, op: CompareOp)
    requires Canonical(f)
    ensures FractionLongRichCompare(f, i, op) == FractionsRichCompare(f, OfInt(i), op)
  {
  }

  /** Equality is value equality, and != is its negation. */
  lemma EqualityIsValueEquality(a: Fraction, b: Fraction)
    requires Canonical(a) && Canonical(b)
    ensures FractionsRichCompare(a, b, Eq) <==> Value(a) == Value(b)
    ensures FractionsRichCompare(a, b, Ne) <==> !FractionsRichCompare(a, b, Eq)
  {
  }

  /** The orderings form a total order consistent with equality. */
  lemma OrderLaws(a: Fraction, b: Fraction, c: Fraction)
    requires Canonical(a) && Canonical(b) && Canonical(c)
    ensures FractionsRichCompare(a, a, Le) && !FractionsRichCompare(a, a, Lt)
    ensures FractionsRichCompare(a, b, Le) || FractionsRichCompare(b, a, Le)
    ensures FractionsRichCompare(a, b, Le) && FractionsRichCompare(b, a, Le) ==> a == b
    ensures FractionsRichCompare(a, b, Le) && FractionsRichCompare(b, c, Le) ==>
              FractionsRichCompare(a, c, Le)
    ensures FractionsRichCompare(a, b, Lt) <==> FractionsRichCompare(b, a, Gt)
    ensures FractionsRichCompare(a, b, Ge) <==> FractionsRichCompare(b, a, Le)
    ensures FractionsRichCompare(a, b, Lt) <==>
              FractionsRichCompare(a, b, Le) && FractionsRichCompare(a, b, Ne)
  {
    if Value(a) == Value(b) {
      CanonicalUnique(a, b);
    }
  }
}
