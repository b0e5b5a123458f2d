/** The fraction object: its state, the two normalisation helpers every
    operation ends with, construction (`Fraction.__new__` followed by
    `Fraction.__init__`) and the unary operations.

    A fraction object holds two host integers, normally kept canonical:
    positive denominator, numerator and denominator coprime.  Three paths
    leave a non-canonical object: an integer base raised to a negative whole
    fraction exponent (no sign normalisation), an integer base with a
    fraction modulus (a fraction as numerator), and a repeated `__init__`
    with a single integer, which keeps the old denominator.
    Its meaning is the rational number `Value(f)`, which the proofs use as the
    independent reference for every operation. */
module Fractions {
  import opened IntegerMath

  datatype Fraction = Fraction(num: int, den: int)

  /** Lowest terms with a positive denominator. */
  predicate Canonical(f: Fraction)
  {
    f.den > 0 && Gcd(f.num, f.den) == 1
  }

  /** The rational number a pair with a nonzero denominator stands for. */
  function Value(f: Fraction): real
    requires f.den != 0
  {
    f.num as real / f.den as real
  }

  /** The exceptions the engine raises. */
  datatype Error = ZeroDivisionError | ValueError | TypeError

  datatype Result<T> = Ok(value: T) | Err(error: Error)

  /** An operand of a binary operation: a fraction object or a host integer. */
  datatype Operand = Frac(f: Fraction) | Int(i: int)

  /** The fraction an integer operand stands for. */
  function OfInt(i: int): (r: Fraction)
    ensures Canonical(r) && Value(r) == i as real
  {
    GcdWithOne(i);
    Fraction(i, 1)
  }

  function OperandValue(x: Operand): real
    requires x.Frac? ==> x.f.den != 0
  {
    match x
    case Frac(f) => Value(f)
    case Int(i) => i as real
  }

  // ---------------------------------------------------------------------------
  // The value of a pair
  // ---------------------------------------------------------------------------

  /** Two pairs have the same value exactly when they cross-multiply equal. */
  lemma ValueEq(a: Fraction, b: Fraction)
    requires a.den != 0 && b.den != 0
    ensures Value(a) == Value(b) <==> a.num * b.den == b.num * a.den
  {
    assert (a.num * b.den) as real == a.num as real * b.den as real;
    assert (b.num * a.den) as real == b.num as real * a.den as real;
  }

  /** With positive denominators the order of values is the order of the cross products. */
  lemma ValueLe(a: Fraction, b: Fraction)
    requires a.den > 0 && b.den > 0
    ensures Value(a) <= Value(b) <==> a.num * b.den <= b.num * a.den
  {
    assert (a.num * b.den) as real == a.num as real * b.den as real;
    assert (b.num * a.den) as real == b.num as real * a.den as real;
  }

  lemma ValueLt(a: Fraction, b: Fraction)
    requires a.den > 0 && b.den > 0
    ensures Value(a) < Value(b) <==> a.num * b.den < b.num * a.den
  {
    ValueLe(a, b);
    ValueEq(a, b);
  }

  /** Cancelling a common factor g > 0 keeps the value and the denominator's sign. */
  lemma ValueCancel(p: int, q: int, g: int)
    requires q != 0 && g > 0
    ensures g * q != 0 && (g * q > 0 <==> q > 0)
    ensures Value(Fraction(g * p, g * q)) == Value(Fraction(p, q))
  {
    MulNonZero(g, q);
    assert (g * p) as real == g as real * p as real;
    assert (g * q) as real == g as real * q as real;
  }

  /** A canonical pair is determined by its value. */
  lemma CanonicalUnique(a: Fraction, b: Fraction)
    requires Canonical(a) && Canonical(b)
    requires Value(a) == Value(b)
    ensures a == b
  {
    ValueEq(a, b);
    DenominatorDivides(a.num, a.den, b.num, b.den);
    DenominatorDivides(b.num, b.den, a.num, a.den);
    MutualDivides(a.den, b.den);
    MulCancel(a.den, a.num, b.num);
  }

  /** If p/q is in lowest terms and p * s == r * q, then q divides s. */
  lemma DenominatorDivides(p: int, q: int, r: int, s: int)
    requires Gcd(p, q) == 1
    requires p * s == r * q
    ensures Divides(q, s)
  {
    GcdComm(p, q);
    DividesMultiple(q, r);
    assert q * r == p * s;
    EuclidLemma(q, p, s);
  }

  // ---------------------------------------------------------------------------
  // normalize_Fraction_components_moduli / _signs
  // ---------------------------------------------------------------------------

  /** The pair with its gcd floor-divided out (skipped when the gcd is 1). */
  function Reduce(num: int, den: int): (r: Fraction)
    requires den != 0
    ensures r.den != 0 && Value(r) == Value(Fraction(num, den))
    ensures Gcd(r.num, r.den) == 1
    ensures r.den > 0 <==> den > 0
    ensures Gcd(num, den) == 1 ==> r == Fraction(num, den)
  {
    var g := Gcd(num, den);
    GcdZero(num, den);
    GcdDivides(num, den);
    ExactQuotient(num, g);
    ExactQuotient(den, g);
    if g != 1 then
      ValueCancel(num / g, den / g, g);
      CoprimeAfterGcd(num, den);
      Fraction(FloorDiv(num, g), FloorDiv(den, g))
    else
      Fraction(num, den)
  }

  /** Floor-dividing a multiple of g > 0 by g is exact. */
  lemma ExactQuotient(x: int, g: int)
    requires g > 0 && Divides(g, x)
    ensures FloorDiv(x, g) == x / g && x == g * (x / g)
  {
    DividesCofactor(g, x);
  }

  /** With a positive denominator the reduced pair is canonical. */
  lemma ReduceCanonical(num: int, den: int)
    requires den > 0
    ensures Canonical(Reduce(num, den))
  {
  }

  /** Pairs with the same value reduce to the same canonical pair. */
  lemma ReduceSameValue(a: Fraction, b: Fraction)
    requires a.den > 0 && b.den > 0
    requires Value(a) == Value(b)
    ensures Reduce(a.num, a.den) == Reduce(b.num, b.den)
  {
    CanonicalUnique(Reduce(a.num, a.den), Reduce(b.num, b.den));
  }

  /** The in-place form: overwrite both components with the reduced pair. */
  method NormalizeModuli(num: int, den: int) returns (num': int, den': int)
    requires den != 0
    ensures Fraction(num', den') == Reduce(num, den)
    ensures den' != 0 && Value(Fraction(num', den')) == Value(Fraction(num, den))
    ensures Gcd(num', den') == 1
  {
    var g := Gcd(num, den);
    GcdZero(num, den);
    num', den' := num, den;
    if g != 1 {
      num' := FloorDiv(num, g);
      den' := FloorDiv(den, g);
    }
  }

  /** The pair with both signs flipped when the denominator is negative. */
  function SignNormalized(num: int, den: int): (r: Fraction)
    requires den != 0
    ensures r.den > 0 && Abs(r.den) == Abs(den)
    ensures Value(r) == Value(Fraction(num, den))
    ensures Gcd(r.num, r.den) == Gcd(num, den)
  {
    GcdNegBoth(num, den);
    if den < 0 then
      ValueEq(Fraction(-num, -den), Fraction(num, den));
      Fraction(-num, -den)
    else
      Fraction(num, den)
  }

  method NormalizeSigns(num: int, den: int) returns (num': int, den': int)
    requires den != 0
    ensures Fraction(num', den') == SignNormalized(num, den)
    ensures den' > 0 && Value(Fraction(num', den')) == Value(Fraction(num, den))
  {
    num', den' := num, den;
    if den < 0 {
      num' := -num;
      den' := -den;
    }
  }

  // ---------------------------------------------------------------------------
  // Construction
  // ---------------------------------------------------------------------------

  /** A positional argument of `Fraction(...)`: an int, a fraction, or an object that is
      neither an int, a float nor a fraction (floats are left out). */
  datatype Argument = IntArg(i: int) | FracArg(f: Fraction) | OtherArg

  datatype InitArgs = NoArgs | One(x: Argument) | Pair(x: Argument, y: Argument)

  /** The mutable object behind a fraction: `Fraction.__new__` gives 0/1 and
      `Fraction.__init__` overwrites the fields from its arguments. */
  class FractionObject {
    var num: int
    var den: int

    function State(): Fraction
      reads this
    {
      Fraction(num, den)
    }

    /** `Fraction.__new__`. */
    constructor ()
      ensures State() == Fraction(0, 1) && Canonical(State())
    {
      num, den := 0, 1;
      GcdWithOne(0);
    }

    /** `Fraction.__init__`.  A single integer replaces only the numerator; the
        denominator keeps whatever the object held. */
    method Init(args: InitArgs) returns (r: Result<()>)
      modifies this
      ensures args.Pair? && !(args.x.IntArg? && args.y.IntArg?) ==>
                r == Err(TypeError) && State() == old(State())
      ensures args.Pair? && args.x.IntArg? && args.y == IntArg(0) ==>
                r == Err(ZeroDivisionError) && State() == old(State())
      ensures args.Pair? && args.x.IntArg? && args.y.IntArg? && args.y.i != 0 ==>
                r == Ok(()) && Canonical(State()) &&
                Value(State()) == Value(Fraction(args.x.i, args.y.i))
      ensures args.One? && args.x.IntArg? ==> r == Ok(()) && State() == Fraction(args.x.i, old(den))
      ensures args.One? && args.x.FracArg? ==> r == Ok(()) && State() == args.x.f
      ensures args.One? && args.x.OtherArg? ==> r == Err(TypeError) && State() == old(State())
      ensures args.NoArgs? ==> r == Ok(()) && State() == old(State())
    {
      match args
      case NoArgs =>
        r := Ok(());
      case Pair(x, y) =>
        if !x.IntArg? || !y.IntArg? {
          r := Err(TypeError);
          return;
        }
        if y.i == 0 {
          r := Err(ZeroDivisionError);
          return;
        }
        var n, d := x.i, y.i;
        if d < 0 {
          n, d := -n, -d;
          assert (-x.i) as real / (-y.i) as real == x.i as real / y.i as real;
        }
        n, d := NormalizeModuli(n, d);
        num, den := n, d;
        r := Ok(());
      case One(x) =>
        match x
        case IntArg(i) =>
          num := i;
          r := Ok(());
        case FracArg(f) =>
          den := f.den;
          num := f.num;
          r := Ok(());
        case OtherArg =>
          r := Err(TypeError);
    }
  }

  /** A call `Fraction(*args)`: allocate with `__new__`, then run `__init__`.
      Valid arguments always give a canonical object. */
  method Construct(args: InitArgs) returns (r: Result<FractionObject>)
    requires args.One? && args.x.FracArg? ==> Canonical(args.x.f)
    ensures r.Ok? ==> fresh(r.value) && Canonical(r.value.State())
    ensures args.NoArgs? ==> r.Ok? && r.value.State() == Fraction(0, 1)
    ensures args.One? && args.x.IntArg? ==> r.Ok? && r.value.State() == Fraction(args.x.i, 1)
    ensures args.One? && args.x.FracArg? ==> r.Ok? && r.value.State() == args.x.f
    ensures args.Pair? && args.x.IntArg? && args.y.IntArg? && args.y.i != 0 ==>
              r.Ok? && Value(r.value.State()) == Value(Fraction(args.x.i, args.y.i))
    ensures r.Err? <==>
              args == One(OtherArg) ||
              (args.Pair? && (!args.x.IntArg? || !args.y.IntArg? || args.y.i == 0))
    ensures r.Err? && args.Pair? && args.x.IntArg? && args.y == IntArg(0) ==>
              r.error == ZeroDivisionError
    ensures r.Err? && !(args.Pair? && args.x.IntArg? && args.y == IntArg(0)) ==>
              r.error == TypeError
  {
    var obj := new FractionObject();
    var status := obj.Init(args);
    if status.Err? {
      r := Err(status.error);
    } else {
      if args.One? && args.x.IntArg? {
        GcdWithOne(args.x.i);
      }
      r := Ok(obj);
    }
  }

  // ---------------------------------------------------------------------------
  // Unary operations
  // ---------------------------------------------------------------------------

  lemma NegatedQuotient(x: real, y: real)
    requires y != 0.0
    ensures (-x) / y == -(x / y)
  {
  }

  /** `-f`: the numerator negated, the denominator shared. */
  function Negative(f: Fraction): (r: Fraction)
    requires f.den != 0
    ensures r.den == f.den && Value(r) == -Value(f)
    ensures Canonical(f) ==> Canonical(r)
  {
    GcdNegLeft(f.num, f.den);
    NegatedQuotient(f.num as real, f.den as real);
    assert (-f.num) as real == -(f.num as real);
    Fraction(-f.num, f.den)
  }

  /** `abs(f)`: the negation for a negative numerator, otherwise f itself. */
  function Absolute(f: Fraction): (r: Fraction)
    requires f.den > 0
    ensures r.num >= 0 && r.den == f.den
    ensures Value(r) == if Value(f) < 0.0 then -Value(f) else Value(f)
    ensures Canonical(f) ==> Canonical(r)
  {
    ValueLt(f, Fraction(0, 1));
    if f.num < 0 then Negative(f) else f
  }

  /** `bool(f)`: whether the numerator is nonzero. */
  function Truth(f: Fraction): (r: bool)
    requires f.den != 0
    ensures r <==> Value(f) != 0.0
  {
    ValueEq(f, Fraction(0, 1));
    f.num != 0
  }
}
