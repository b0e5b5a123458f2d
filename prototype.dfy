/** The earlier C++ prototype: a Euclid loop over host integers with floored
    `/` and `%`, and a fraction class whose constructor divides both
    components by that gcd and then moves the sign to the numerator. */
module Prototype {
  import opened IntegerMath
  import opened Fractions
  import Comparison

  // ---------------------------------------------------------------------------
  // to_gcd
  // ---------------------------------------------------------------------------

  /** The sign of a floored remainder follows the divisor, so its magnitude
      is below the divisor's. */
  lemma FloorModSmaller(a: int, b: int)
    requires b != 0
    ensures Abs(FloorMod(a, b)) < Abs(b)
  {
    FloorDivMod(a, b);
  }

  /** The value Euclid's loop ends with from the pair (result, remainder). */
  function EuclidLoop(result: int, remainder: int): int
    decreases Abs(remainder)
  {
    if remainder == 0 then result
    else
      FloorModSmaller(result, remainder);
      EuclidLoop(remainder, FloorMod(result, remainder))
  }

  /** A floored step keeps the gcd. */
  lemma GcdFloorStep(a: int, b: int)
    requires b != 0
    ensures Gcd(a, b) == Gcd(b, FloorMod(a, b))
  {
    GcdShift(a, b, -FloorDiv(a, b));
    assert a + b * -FloorDiv(a, b) == FloorMod(a, b);
    GcdComm(FloorMod(a, b), b);
  }

  /** The loop's result is the gcd up to sign. */
  lemma {:induction false} EuclidLoopGcd(a: int, b: int)
    ensures Abs(EuclidLoop(a, b)) == Gcd(a, b)
    decreases Abs(b)
  {
    if b == 0 {
      GcdWithZero(a);
    } else {
      FloorModSmaller(a, b);
      GcdFloorStep(a, b);
      EuclidLoopGcd(b, FloorMod(a, b));
    }
  }

  /** A divisor's negation divides the same numbers. */
  lemma DivisorNegated(d: int, n: int)
    requires Divides(d, n)
    ensures Divides(-d, n)
  {
    DividesCofactor(d, n);
    var k := Cofactor(n, d);
    DividesMultiple(-d, -k);
    assert (-d) * (-k) == d * k;
  }

  /** Anything whose magnitude is the gcd divides both arguments. */
  lemma SignedGcdDivides(g: int, a: int, b: int)
    requires Abs(g) == Gcd(a, b)
    ensures Divides(g, a) && Divides(g, b)
  {
    GcdDivides(a, b);
    if g < 0 {
      DivisorNegated(Gcd(a, b), a);
      DivisorNegated(Gcd(a, b), b);
    }
  }

  /** `to_gcd`: Euclid's loop from (max, min) with the floored remainder.
      The result divides both arguments and its magnitude is their gcd, so
      it is nonzero unless both are; its sign is not fixed. */
  method ToGcd(left: int, right: int) returns (r: int)
    ensures r == EuclidLoop(if left < right then right else left, if right < left then right else left)
    ensures Abs(r) == Gcd(left, right)
    ensures Divides(r, left) && Divides(r, right)
    ensures left != 0 || right != 0 ==> r != 0
  {
    var result := if left < right then right else left;
    var remainder := if right < left then right else left;
    ghost var start, other := result, remainder;
    while remainder != 0
      invariant EuclidLoop(result, remainder) == EuclidLoop(start, other)
      decreases Abs(remainder)
    {
      FloorModSmaller(result, remainder);
      var step := FloorMod(result, remainder);
      result := remainder;
      remainder := step;
    }
    r := result;
    EuclidLoopGcd(start, other);
    GcdComm(left, right);
    SignedGcdDivides(r, left, right);
    GcdZero(left, right);
  }

  /** The prototype's gcd can be negative: to_gcd(6, -4) ends with -2. */
  lemma NegativeGcdExample()
    ensures EuclidLoop(6, -4) == -2
  {
    assert FloorMod(6, -4) == -2;
    assert FloorMod(-4, -2) == 0;
  }

  // ---------------------------------------------------------------------------
  // The fraction class
  // ---------------------------------------------------------------------------

  /** Floor-dividing both components by a signed gcd gives the reduced pair
      or its negation: coprime, with the same value. */
  lemma DivideBySignedGcd(n: int, d: int, g: int)
    requires d != 0 && Abs(g) == Gcd(n, d)
    ensures g != 0 && FloorDiv(d, g) != 0
    ensures Gcd(FloorDiv(n, g), FloorDiv(d, g)) == 1
    ensures Value(Fraction(FloorDiv(n, g), FloorDiv(d, g))) == Value(Fraction(n, d))
  {
    GcdZero(n, d);
    var n0, d0 := GcdCofactors(n, d);
    var s := if g > 0 then 1 else -1;
    SignedCofactor(n, Gcd(n, d), n0, g, s);
    SignedCofactor(d, Gcd(n, d), d0, g, s);
    FloorDivUnique(n, g, s * n0, 0);
    FloorDivUnique(d, g, s * d0, 0);
    SignedPair(n0, d0, s);
  }

  lemma SignedCofactor(x: int, G: int, x0: int, g: int, s: int)
    requires x == G * x0 && G == Abs(g) && s == (if g > 0 then 1 else -1)
    ensures x == g * (s * x0)
  {
    if g <= 0 {
      assert G == -g;
      assert g * (-x0) == (-g) * x0;
    }
  }

  /** Multiplying both components by the same sign keeps coprimality and
      the value. */
  lemma SignedPair(n: int, d: int, s: int)
    requires d != 0 && (s == 1 || s == -1) && Gcd(n, d) == 1
    ensures s * d != 0 && Gcd(s * n, s * d) == 1
    ensures Value(Fraction(s * n, s * d)) == Value(Fraction(n, d))
  {
    if s == -1 {
      GcdNegBoth(n, d);
      NegatedValue(n, d);
    }
  }

  /** The pair divided by its gcd: coprime, with the same value. */
  lemma GcdCofactors(n: int, d: int) returns (n0: int, d0: int)
    requires d != 0
    ensures n == Gcd(n, d) * n0 && d == Gcd(n, d) * d0 && d0 != 0
    ensures Gcd(n0, d0) == 1
    ensures Value(Fraction(n0, d0)) == Value(Fraction(n, d))
  {
    GcdZero(n, d);
    var G := Gcd(n, d);
    GcdDivides(n, d);
    DividesCofactor(G, n);
    DividesCofactor(G, d);
    n0, d0 := Cofactor(n, G), Cofactor(d, G);
    CoprimeAfterGcd(n, d);
    ValueCancel(n0, d0, G);
    assert Fraction(n, d) == Fraction(G * n0, G * d0);
  }

  lemma NegatedValue(n: int, d: int)
    requires d != 0
    ensures Value(Fraction(-n, -d)) == Value(Fraction(n, d))
  {
    assert (-n) as real == -(n as real) && (-d) as real == -(d as real);
  }

  /** The prototype's `Fraction`: two host integers that the constructor
      normalises in place. */
  class PrototypeFraction {
    var numerator: int
    var denominator: int

    function Pair(): Fraction
      reads this
    {
      Fraction(numerator, denominator)
    }

    /** The constructor's invariant: lowest terms with a positive denominator. */
    predicate Valid()
      reads this
    {
      Canonical(Pair())
    }

    /** `Fraction(numerator, denominator)`: divide both by to_gcd, then flip
        both signs when the denominator came out negative.  The pair is in
        lowest terms and keeps the value. */
    constructor (num: int, den: int)
      requires den != 0
      ensures Valid()
      ensures Value(Pair()) == Value(Fraction(num, den))
    {
      numerator, denominator := num, den;
      new;
      var g := ToGcd(numerator, denominator);
      DivideBySignedGcd(numerator, denominator, g);
      numerator := FloorDiv(numerator, g);
      denominator := FloorDiv(denominator, g);
      if denominator < 0 {
        GcdNegBoth(numerator, denominator);
        NegatedValue(numerator, denominator);
        denominator := -denominator;
        numerator := -numerator;
      }
    }

    /** `abs()`: a new fraction from the numerator's magnitude and the same
        denominator. */
    method Absolute() returns (r: PrototypeFraction)
      requires Valid()
      ensures fresh(r) && r.Valid()
      ensures r.numerator == Abs(numerator) && r.denominator == denominator
    {
      var magnitude := if numerator < 0 then -numerator else numerator;
      r := new PrototypeFraction(magnitude, denominator);
      GcdNegLeft(numerator, denominator);
      CanonicalUnique(r.Pair(), Fraction(magnitude, denominator));
    }

    /** `operator==`: componentwise, which for valid fractions is equality
        of values. */
    function Equals(other: PrototypeFraction): (r: bool)
      reads this, other
      ensures Valid() && other.Valid() ==> (r <==> Value(Pair()) == Value(other.Pair()))
    {
      Comparison.CrossOrder(Pair(), other.Pair());
      numerator == other.numerator && denominator == other.denominator
    }
  }

  /** The binding's `__init__`: a zero denominator is a ZeroDivisionError
      before any fraction is built. */
  method NewPrototypeFraction(num: int, den: int) returns (r: Result<PrototypeFraction>)
    ensures r.Err? <==> den == 0
    ensures r.Err? ==> r.error == ZeroDivisionError
    ensures r.Ok? ==> fresh(r.value) && r.value.Valid() &&
                      Value(r.value.Pair()) == Value(Fraction(num, den))
  {
    if den == 0 {
      return Err(ZeroDivisionError);
    }
    var f := new PrototypeFraction(num, den);
    r := Ok(f);
  }
}
