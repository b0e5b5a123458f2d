/** Exact integer arithmetic underneath the fraction engine.

    The engine works on the host's unbounded integers and uses three of their
    operations that differ from Dafny's own: `//` and `%` round toward negative
    infinity (the remainder takes the divisor's sign), and the gcd is always
    non-negative with gcd(0, 0) = 0.  Dafny's `/` and `%` are Euclidean, so the
    floored pair is defined here on top of them. */
module IntegerMath {

  function Abs(x: int): nat
  {
    if x < 0 then -x else x
  }

  // ---------------------------------------------------------------------------
  // Floored division and remainder (the host's `//` and `%`)
  // ---------------------------------------------------------------------------

  /** `a // b`: the quotient rounded toward negative infinity. */
  function FloorDiv(a: int, b: int): int
    requires b != 0
  {
    if b > 0 then a / b else (-a) / (-b)
  }

  /** `a % b`: the remainder that goes with FloorDiv; it takes b's sign. */
  function FloorMod(a: int, b: int): int
    requires b != 0
  {
    a - b * FloorDiv(a, b)
  }

  /** The division law and the range of the floored remainder. */
  lemma FloorDivMod(a: int, b: int)
    requires b != 0
    ensures a == b * FloorDiv(a, b) + FloorMod(a, b)
    ensures b > 0 ==> 0 <= FloorMod(a, b) < b
    ensures b < 0 ==> b < FloorMod(a, b) <= 0
  {
    if b < 0 {
      var q := (-a) / (-b);
      assert -a == (-b) * q + (-a) % (-b);
      assert FloorMod(a, b) == -((-a) % (-b));
    }
  }

  /** The floored quotient is the floor of the exact quotient. */
  lemma FloorDivReal(x: int, y: int)
    requires y != 0
    ensures FloorDiv(x, y) == (x as real / y as real).Floor
  {
    var q, m := FloorDiv(x, y), FloorMod(x, y);
    FloorDivMod(x, y);
    assert x as real == y as real * q as real + m as real;
    assert x as real / y as real == q as real + m as real / y as real;
  }

  /** A product whose non-negative value stays below |b| has a zero factor. */
  lemma MulBelowDivisor(b: int, t: int)
    requires b != 0
    requires 0 <= b * t < Abs(b)
    ensures t == 0
  {
  }

  lemma MulNonNegative(x: int, y: int)
    requires x >= 0 && y >= 0
    ensures x * y >= 0
  {
  }

  lemma MulComm(x: int, y: int)
    ensures x * y == y * x
  {
  }

  lemma MulPositive(x: int, y: int)
    requires x > 0 && y > 0
    ensures x * y > 0
  {
  }

  /** Floored division is characterised by the division law and the remainder range. */
  lemma FloorDivUnique(a: int, b: int, q: int, r: int)
    requires b != 0
    requires a == b * q + r
    requires b > 0 ==> 0 <= r < b
    requires b < 0 ==> b < r <= 0
    ensures FloorDiv(a, b) == q && FloorMod(a, b) == r
  {
    FloorDivMod(a, b);
    var q', r' := FloorDiv(a, b), FloorMod(a, b);
    assert b * (q - q') == r' - r;
    if b > 0 {
      if r' >= r {
        MulBelowDivisor(b, q - q');
      } else {
        assert b * (q' - q) == r - r';
        MulBelowDivisor(b, q' - q);
      }
    } else {
      if r' <= r {
        assert b * (q' - q) == r - r';
        MulBelowDivisor(b, q' - q);
      } else {
        MulBelowDivisor(b, q - q');
      }
    }
  }

  /** Cancelling a positive common factor leaves the floored quotient unchanged. */
  lemma FloorDivCancel(a: int, b: int, k: int)
    requires b != 0 && k > 0
    ensures k * b != 0
    ensures FloorDiv(k * a, k * b) == FloorDiv(a, b)
    ensures FloorMod(k * a, k * b) == k * FloorMod(a, b)
  {
    MulNonZero(k, b);
    FloorDivMod(a, b);
    var q, r := FloorDiv(a, b), FloorMod(a, b);
    assert k * a == (k * b) * q + k * r;
    if b > 0 {
      MulPositive(k, b);
      MulNonNegative(k, r);
      assert k * b - k * r == k * (b - r);
      MulPositive(k, b - r);
    } else {
      assert k * b == -(k * (-b));
      MulPositive(k, -b);
      assert k * r == -(k * (-r));
      MulNonNegative(k, -r);
      assert k * r - k * b == k * (r - b);
      MulPositive(k, r - b);
    }
    FloorDivUnique(k * a, k * b, q, k * r);
  }

  lemma MulNonZero(x: int, y: int)
    requires x != 0 && y != 0
    ensures x * y != 0
  {
  }

  /** x * y == x * z with x nonzero forces y == z. */
  lemma MulCancel(x: int, y: int, z: int)
    requires x != 0
    requires x * y == x * z
    ensures y == z
  {
    assert x * (y - z) == 0;
    if y != z {
      MulNonZero(x, y - z);
    }
  }

  /** Equal factors give equal products (a congruence step the solver does not take on compound terms). */
  lemma MulEq(p: int, q: int, p': int, q': int)
    requires p == p' && q == q'
    ensures p * q == p' * q'
  {
  }

  // ---------------------------------------------------------------------------
  // Divisibility
  // ---------------------------------------------------------------------------

  /** d divides n (0 divides only 0). */
  predicate Divides(d: int, n: int)
  {
    if d == 0 then n == 0 else n % d == 0
  }

  /** The cofactor of a divisor: n == d * Cofactor(n, d) whenever d divides n. */
  function Cofactor(n: int, d: int): int
  {
    if d == 0 then 0 else n / d
  }

  lemma DividesCofactor(d: int, n: int)
    requires Divides(d, n)
    ensures n == d * Cofactor(n, d)
  {
  }

  lemma {:induction false} DividesMultiple(d: int, k: int)
    ensures Divides(d, d * k)
  {
    if d != 0 {
      var m := d * k;
      var q, r := m / d, m % d;
      assert m == d * q + r;
      assert d * (k - q) == r;
      MulBelowDivisor(d, k - q);
    }
  }

  lemma DividesSelf(d: int)
    ensures Divides(d, d)
  {
    DividesMultiple(d, 1);
  }

  /** A common divisor divides every integer combination. */
  lemma DividesLinear(d: int, a: int, b: int, x: int, y: int)
    requires Divides(d, a) && Divides(d, b)
    ensures Divides(d, a * x + b * y)
  {
    if d != 0 {
      var p, q := a / d, b / d;
      DividesCofactor(d, a);
      DividesCofactor(d, b);
      MulEq(a, x, d * p, x);
      MulEq(b, y, d * q, y);
      assert a * x + b * y == d * (p * x + q * y);
      DividesMultiple(d, p * x + q * y);
    }
  }

  lemma DividesTrans(a: int, b: int, c: int)
    requires Divides(a, b) && Divides(b, c)
    ensures Divides(a, c)
  {
    DividesCofactor(b, c);
    DividesLinear(a, b, 0, Cofactor(c, b), 0);
  }

  /** The only divisors of 1 are 1 and -1. */
  lemma DividesOne(d: int)
    requires Divides(d, 1)
    ensures d == 1 || d == -1
  {
    var q := 1 / d;
    DividesCofactor(d, 1);
    assert d * q == 1;
    if Abs(d) >= 2 {
      MulBelowDivisor(d, q);
    }
  }

  /** Two non-negative integers that divide each other are equal. */
  lemma MutualDivides(a: int, b: int)
    requires a >= 0 && b >= 0
    requires Divides(a, b) && Divides(b, a)
    ensures a == b
  {
    if a != 0 && b != 0 {
      var k, m := b / a, a / b;
      DividesCofactor(a, b);
      DividesCofactor(b, a);
      assert a == a * (k * m);
      MulCancel(a, k * m, 1);
      DividesMultiple(k, m);
      DividesOne(k);
    }
  }

  // ---------------------------------------------------------------------------
  // Greatest common divisor (the host's non-negative gcd)
  // ---------------------------------------------------------------------------

  /** Euclid's algorithm on Dafny's Euclidean remainder; Gcd(0, 0) == 0. */
  function Gcd(a: int, b: int): nat
    decreases Abs(b)
  {
    if b == 0 then Abs(a) else Gcd(b, a % b)
  }

  lemma {:induction false} GcdDivides(a: int, b: int)
    ensures Divides(Gcd(a, b), a) && Divides(Gcd(a, b), b)
    decreases Abs(b)
  {
    if b == 0 {
      if a < 0 {
        DividesMultiple(-a, -1);
      } else {
        DividesSelf(a);
      }
    } else {
      GcdDivides(b, a % b);
      assert a == b * (a / b) + (a % b) * 1;
      DividesLinear(Gcd(b, a % b), b, a % b, a / b, 1);
    }
  }

  /** Bezout's identity, by the extended Euclidean algorithm. */
  lemma {:induction false} Bezout(a: int, b: int) returns (x: int, y: int)
    ensures a * x + b * y == Gcd(a, b)
    decreases Abs(b)
  {
    if b == 0 {
      x, y := if a < 0 then -1 else 1, 0;
    } else {
      var x', y' := Bezout(b, a % b);
      BezoutStep(a, b, a / b, a % b, x', y');
      x, y := y', x' - (a / b) * y';
    }
  }

  lemma BezoutStep(a: int, b: int, q: int, r: int, x': int, y': int)
    requires a == b * q + r
    ensures a * y' + b * (x' - q * y') == b * x' + r * y'
  {
    MulEq(a, y', b * q + r, y');
  }

  /** Every common divisor divides the gcd. */
  lemma GcdGreatest(a: int, b: int, d: int)
    requires Divides(d, a) && Divides(d, b)
    ensures Divides(d, Gcd(a, b))
  {
    var x, y := Bezout(a, b);
    DividesLinear(d, a, b, x, y);
  }

  lemma GcdZero(a: int, b: int)
    ensures Gcd(a, b) == 0 <==> a == 0 && b == 0
  {
    GcdDivides(a, b);
    if a == 0 && b == 0 {
      assert Gcd(a, b) == Abs(a);
    }
  }

  lemma GcdComm(a: int, b: int)
    ensures Gcd(a, b) == Gcd(b, a)
  {
    GcdDivides(a, b);
    GcdDivides(b, a);
    GcdGreatest(a, b, Gcd(b, a));
    GcdGreatest(b, a, Gcd(a, b));
    MutualDivides(Gcd(a, b), Gcd(b, a));
  }

  lemma DividesNeg(d: int, a: int)
    requires Divides(d, a)
    ensures Divides(d, -a)
  {
    DividesLinear(d, a, 0, -1, 0);
  }

  lemma GcdNegLeft(a: int, b: int)
    ensures Gcd(-a, b) == Gcd(a, b)
  {
    GcdDivides(a, b);
    GcdDivides(-a, b);
    DividesNeg(Gcd(a, b), a);
    DividesNeg(Gcd(-a, b), -a);
    GcdGreatest(-a, b, Gcd(a, b));
    GcdGreatest(a, b, Gcd(-a, b));
    MutualDivides(Gcd(a, b), Gcd(-a, b));
  }

  lemma GcdNegBoth(a: int, b: int)
    ensures Gcd(-a, -b) == Gcd(a, b)
  {
    GcdNegLeft(a, -b);
    GcdComm(a, -b);
    GcdNegLeft(b, a);
    GcdComm(b, a);
  }

  /** Adding a multiple of b to a does not change gcd(a, b). */
  lemma GcdShift(a: int, b: int, k: int)
    ensures Gcd(a + b * k, b) == Gcd(a, b)
  {
    var c := a + b * k;
    GcdDivides(a, b);
    GcdDivides(c, b);
    ShiftDivides(Gcd(a, b), a, b, k);
    GcdGreatest(c, b, Gcd(a, b));
    ShiftDivides(Gcd(c, b), c, b, -k);
    ShiftBack(a, b, k);
    GcdGreatest(a, b, Gcd(c, b));
    MutualDivides(Gcd(a, b), Gcd(c, b));
  }

  lemma ShiftDivides(d: int, a: int, b: int, k: int)
    requires Divides(d, a) && Divides(d, b)
    ensures Divides(d, a + b * k)
  {
    DividesLinear(d, a, b, 1, k);
  }

  lemma ShiftBack(a: int, b: int, k: int)
    ensures (a + b * k) + b * (-k) == a
  {
  }

  lemma GcdWithOne(a: int)
    ensures Gcd(a, 1) == 1 && Gcd(1, a) == 1
  {
    assert Gcd(a, 1) == Gcd(1, 0);
    GcdComm(a, 1);
  }

  lemma GcdWithZero(a: int)
    ensures Gcd(a, 0) == Abs(a) && Gcd(0, a) == Abs(a)
  {
    GcdComm(a, 0);
  }

  /** A combination equal to 1 proves the two numbers coprime. */
  lemma CoprimeByCombination(a: int, b: int, x: int, y: int)
    requires a * x + b * y == 1
    ensures Gcd(a, b) == 1
  {
    GcdDivides(a, b);
    DividesLinear(Gcd(a, b), a, b, x, y);
    DividesOne(Gcd(a, b));
  }

  /** Dividing both numbers by their gcd leaves coprime cofactors. */
  lemma CoprimeAfterGcd(a: int, b: int)
    requires Gcd(a, b) != 0
    ensures Gcd(a / Gcd(a, b), b / Gcd(a, b)) == 1
  {
    var g := Gcd(a, b);
    var x, y := Bezout(a, b);
    GcdDivides(a, b);
    DividesCofactor(g, a);
    DividesCofactor(g, b);
    var p, q := a / g, b / g;
    MulEq(a, x, g * p, x);
    MulEq(b, y, g * q, y);
    FactorOut(g, p, q, x, y);
    assert g * (p * x + q * y) == g * 1;
    MulCancel(g, p * x + q * y, 1);
    CoprimeByCombination(p, q, x, y);
  }

  lemma FactorOut(g: int, p: int, q: int, x: int, y: int)
    ensures (g * p) * x + (g * q) * y == g * (p * x + q * y)
  {
  }

  /** Divisors of coprime numbers are coprime. */
  lemma CoprimeDivisors(a: int, b: int, x: int, y: int)
    requires Gcd(a, b) == 1
    requires Divides(x, a) && Divides(y, b)
    ensures Gcd(x, y) == 1
  {
    var u, v := Bezout(a, b);
    DividesCofactor(x, a);
    DividesCofactor(y, b);
    var ka, kb := Cofactor(a, x), Cofactor(b, y);
    SubstituteCombination(a, b, x, y, ka, kb, u, v);
    CoprimeByCombination(x, y, ka * u, kb * v);
  }

  lemma SubstituteCombination(a: int, b: int, x: int, y: int, ka: int, kb: int, u: int, v: int)
    requires a * u + b * v == 1
    requires a == x * ka && b == y * kb
    ensures x * (ka * u) + y * (kb * v) == 1
  {
    MulEq(a, u, x * ka, u);
    MulEq(b, v, y * kb, v);
  }

  /** A product of two numbers coprime to c is coprime to c. */
  lemma CoprimeMul(a: int, b: int, c: int)
    requires Gcd(a, c) == 1 && Gcd(b, c) == 1
    ensures Gcd(a * b, c) == 1
  {
    var x1, y1 := Bezout(a, c);
    var x2, y2 := Bezout(b, c);
    CombineBezout(a, b, c, x1, y1, x2, y2);
    CoprimeByCombination(a * b, c, x1 * x2, y1 + y2 - c * y1 * y2);
  }

  lemma CombineBezout(a: int, b: int, c: int, x1: int, y1: int, x2: int, y2: int)
    requires a * x1 + c * y1 == 1 && b * x2 + c * y2 == 1
    ensures (a * b) * (x1 * x2) + c * (y1 + y2 - c * y1 * y2) == 1
  {
    MulEq(a * x1, b * x2, 1 - c * y1, 1 - c * y2);
  }

  /** Euclid's lemma: a divisor of b * c coprime to b divides c. */
  lemma EuclidLemma(a: int, b: int, c: int)
    requires Gcd(a, b) == 1
    requires Divides(a, b * c)
    ensures Divides(a, c)
  {
    var x, y := Bezout(a, b);
    DividesSelf(a);
    DividesLinear(a, a, b * c, c * x, y);
    ScaleCombination(a, b, c, x, y);
  }

  lemma ScaleCombination(a: int, b: int, c: int, x: int, y: int)
    requires a * x + b * y == 1
    ensures a * (c * x) + (b * c) * y == c
  {
    MulEq(c, a * x + b * y, c, 1);
  }

  // ---------------------------------------------------------------------------
  // Powers with a natural exponent (the host's `**` on integers)
  // ---------------------------------------------------------------------------

  function Pow(b: int, e: nat): int
  {
    if e == 0 then 1 else b * Pow(b, e - 1)
  }

  lemma {:induction false} PowAdd(b: int, e1: nat, e2: nat)
    ensures Pow(b, e1 + e2) == Pow(b, e1) * Pow(b, e2)
  {
    if e1 > 0 {
      PowAdd(b, e1 - 1, e2);
      MulEq(b, Pow(b, e1 - 1 + e2), b, Pow(b, e1 - 1) * Pow(b, e2));
    }
  }

  lemma {:induction false} PowMul(a: int, b: int, e: nat)
    ensures Pow(a * b, e) == Pow(a, e) * Pow(b, e)
  {
    if e > 0 {
      PowMul(a, b, e - 1);
      MulEq(a * b, Pow(a * b, e - 1), a * b, Pow(a, e - 1) * Pow(b, e - 1));
    }
  }

  lemma {:induction false} PowOne(e: nat)
    ensures Pow(1, e) == 1
  {
    if e > 0 {
      PowOne(e - 1);
    }
  }

  lemma {:induction false} PowPositive(b: int, e: nat)
    requires b > 0
    ensures Pow(b, e) > 0
  {
    if e > 0 {
      PowPositive(b, e - 1);
      MulPositive(b, Pow(b, e - 1));
    }
  }

  lemma {:induction false} PowNonZero(b: int, e: nat)
    requires b != 0
    ensures Pow(b, e) != 0
  {
    if e > 0 {
      PowNonZero(b, e - 1);
      MulNonZero(b, Pow(b, e - 1));
    }
  }

  lemma {:induction false} PowZero(e: nat)
    requires e > 0
    ensures Pow(0, e) == 0
  {
  }

  /** Powers of a number coprime to c stay coprime to c. */
  lemma {:induction false} PowCoprimeLeft(a: int, c: int, e: nat)
    requires Gcd(a, c) == 1
    ensures Gcd(Pow(a, e), c) == 1
  {
    if e == 0 {
      GcdWithOne(c);
    } else {
      PowCoprimeLeft(a, c, e - 1);
      CoprimeMul(a, Pow(a, e - 1), c);
    }
  }

  /** Powers of coprime numbers are coprime. */
  lemma PowCoprime(a: int, b: int, e: nat)
    requires Gcd(a, b) == 1
    ensures Gcd(Pow(a, e), Pow(b, e)) == 1
  {
    PowCoprimeLeft(a, b, e);
    GcdComm(Pow(a, e), b);
    PowCoprimeLeft(b, Pow(a, e), e);
    GcdComm(Pow(b, e), Pow(a, e));
  }
}
