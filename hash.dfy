/** `hash(f)`: the numerator's magnitude times the modular inverse of the
    denominator, modulo the host's hash prime, carrying the fraction's sign,
    so that an integral fraction hashes like the integer. */
module Hashing {
  import opened IntegerMath
  import opened Fractions

  /** The host's hash modulus on 64-bit builds: the prime 2^61 - 1. */
  const HashModulus: int := 0x1FFF_FFFF_FFFF_FFFF

  /** The host's hash of an infinity, used when the denominator has no
      inverse modulo the prime. */
  const HashInfinity: int := 314159

  /** The host's hash of an integer: |i| modulo the prime with i's sign;
      -1 is reserved for errors and becomes -2. */
  function IntHash(i: int): (h: int)
    ensures h != -1 && -HashModulus < h < HashModulus
    ensures i >= 0 ==> h >= 0
    ensures i < 0 ==> h <= 0
  {
    FloorDivMod(Abs(i), HashModulus);
    var m := FloorMod(Abs(i), HashModulus);
    var s := if i < 0 then -m else m;
    if s == -1 then -2 else s
  }

  /** `Fraction_hash`: the inverse of the denominator is d^(M-2) mod M. */
  function Hash(f: Fraction): (h: int)
    ensures h != -1 && -HashModulus < h < HashModulus
    ensures f.num >= 0 ==> h >= 0
    ensures f.num < 0 ==> h <= 0 || h == HashInfinity
  {
    var inverse := FloorMod(Pow(f.den, HashModulus - 2), HashModulus);
    if inverse == 0 then
      HashInfinity
    else
      FloorDivMod(Abs(f.num) * inverse, HashModulus);
      var m := FloorMod(Abs(f.num) * inverse, HashModulus);
      var s := if f.num < 0 then -m else m;
      if s == -1 then -2 else s
  }

  /** An integral fraction hashes like its integer. */
  lemma IntegralHash(i: int)
    ensures Hash(Fraction(i, 1)) == IntHash(i)
  {
    PowOne(HashModulus - 2);
    FloorDivMod(1, HashModulus);
    assert FloorMod(Pow(1, HashModulus - 2), HashModulus) == 1;
  }

  /** Equal canonical fractions hash equal. */
  lemma HashRespectsValue(a: Fraction, b: Fraction)
    requires Canonical(a) && Canonical(b) && Value(a) == Value(b)
    ensures Hash(a) == Hash(b)
  {
    CanonicalUnique(a, b);
  }

  lemma {:induction false} PowDivisible(m: int, d: int, e: nat)
    requires Divides(m, d) && e > 0
    ensures Divides(m, Pow(d, e))
  {
    DividesLinear(m, d, 0, Pow(d, e - 1), 0);
  }

  /** A denominator that is a multiple of the prime has no inverse: the
      fraction hashes as an infinity. */
  lemma MultipleOfModulusHash(f: Fraction)
    requires Divides(HashModulus, f.den)
    ensures Hash(f) == HashInfinity
  {
    var p := Pow(f.den, HashModulus - 2);
    PowDivisible(HashModulus, f.den, HashModulus - 2);
    assert p % HashModulus == 0;
    assert FloorDiv(p, HashModulus) == p / HashModulus;
  }
}
