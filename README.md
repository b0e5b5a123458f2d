# cfractions in Dafny

A model of the exact-rational engine of `cfractions`, a C-extension `Fraction`
type for Python, and of the earlier C++ prototype it grew from.

A fraction is a pair of unbounded integers `(num, den)`, normally kept
*canonical*: `den > 0` and `gcd(|num|, den) = 1`. Three paths can leave a
non-canonical object: the two integer-base power branches under "## Findings",
and a repeated `__init__` with a single integer (below). The model gives each pair
its exact meaning `Value(f) = num / den` as a Dafny `real`. The contracts are
stated against that value, so "the sum is the sum" means the real sum. Because a
canonical pair is determined by its value (`Fractions.CanonicalUnique`), those
contracts fix the returned components exactly.

The model has these parts:

- `integers.dfy` (`IntegerMath`): Python's floored `//` and `%` on Dafny's
  Euclidean operators. It also holds divisibility, the non-negative gcd with
  `gcd(0, 0) = 0`, Bezout, coprimality and integer powers.
- `fractions.dfy` (`Fractions`): the pair and its value, plus the two
  normalisation helpers. Each helper is a function and also an in-place method,
  the form of the C helpers that overwrite their out-parameters. This file also
  holds the mutable `FractionObject` behind `__new__`/`__init__`, and `neg`,
  `abs` and `bool`.
- `arithmetic.dfy` (`Arithmetic`): every add, subtract, multiply, true-divide,
  floor-divide, remainder and divmod variant. That means the fraction-fraction
  (`Fractions_*`), fraction-int (`FractionLong_*`) and int-fraction
  (`LongFraction_*`) forms, and the typed slot that dispatches among them on an
  `Operand = Frac | Int`.
- `laws.dfy` (`ArithmeticLaws`): the algebraic laws that relate those operations
  to one another.
- `power.dfy` (`Powers`): integer-exponent power with an optional modulus. The
  outcome is exact, an error, or "inexact", meaning the host's float path is
  taken.
- `compare.dfy` (`Comparison`): rich comparison against fractions and ints.
- `hash.dfy` (`Hashing`): `Fraction.__hash__` over the 64-bit hash prime `2^61 - 1`.
- `rounding.dfy` (`Rounding`): `floor`, `ceil`, `trunc`, `round` and `round(ndigits)`.
- `limit.dfy` (`Limiting`): the continued-fraction loop of `limit_denominator`,
  as a method with loop invariants.
- `prototype.dfy` (`Prototype`): the C++ prototype. It holds `to_gcd` as a
  `while` loop over floored `%`, and a class whose constructor normalises its two
  fields in place.

Errors are a `Result` whose error is `ZeroDivisionError`, `ValueError` or
`TypeError`, the exception the C code sets.

A single integer argument to `Fraction.__init__` replaces only the numerator
and keeps the object's current denominator (src/cfractions.c:231-257). A fresh
object always has denominator 1, so `Fractions.Construct` gives `i/1`. A repeated
`__init__` is another matter: `Fractions.FractionObject.Init` with the single
argument 3, on an object holding 1/3, stores the pair (3, 3).

## Model

| member | source | states |
|---|---|---|
| Fractions.OfInt | src/cfractions.c:415-438 | an integer operand as a fraction is canonical `i/1` with the integer's value |
| Fractions.ValueEq | src/cfractions.c:263-287 | two pairs have equal values exactly when their cross products are equal |
| Fractions.ValueLe | src/cfractions.c:263-287 | with positive denominators, value order is cross-product order (both directions) |
| Fractions.CanonicalUnique | src/cfractions.c:70-100 | two canonical pairs with the same value are the same pair, so component-wise equality is value equality |
| Fractions.Reduce | src/cfractions.c:70-100 | dividing out the gcd keeps the value and the denominator's sign, gives a coprime pair, and leaves an already coprime pair untouched |
| Fractions.ReduceCanonical | src/cfractions.c:70-100 | with a positive denominator the reduced pair is canonical |
| Fractions.ReduceSameValue | src/cfractions.c:70-100 | pairs of equal value reduce to the same pair |
| Fractions.NormalizeModuli | src/cfractions.c:70-100 | the in-place helper leaves exactly the reduced pair in its two variables: same value, gcd 1 |
| Fractions.SignNormalized | src/cfractions.c:102-125 | flipping both signs when the denominator is negative gives a positive denominator of the same magnitude, the same value and the same gcd |
| Fractions.NormalizeSigns | src/cfractions.c:102-125 | the in-place helper leaves exactly the sign-normalised pair: positive denominator, same value |
| Fractions.FractionObject.constructor | src/cfractions.c:49-66 | `__new__` gives the object 0/1 |
| Fractions.FractionObject.Init | src/cfractions.c:184-261 | a pair with a non-int member is a TypeError and `(int, 0)` a ZeroDivisionError, both leaving the state alone; an int pair is stored reduced, canonical and of the same value; one int replaces only the numerator; a fraction is copied; any other single argument is a TypeError; no arguments change nothing |
| Fractions.Construct | src/cfractions.c:184-261 | `Fraction(*args)` errs exactly for the TypeError and ZeroDivisionError cases; otherwise the new object is canonical: 0/1, `i/1`, the fraction copied, or the reduced pair of the same value |
| Fractions.Negative | src/cfractions.c:337-351 | same denominator, negated value, canonical when the input is |
| Fractions.Absolute | src/cfractions.c:353-360 | non-negative numerator, same denominator, the value's magnitude, canonical when the input is |
| Fractions.Truth | src/cfractions.c:461-463 | true exactly when the value is nonzero |
| Arithmetic.AsFraction | src/cfractions.c:415-438 | the fraction an operand stands for is canonical with the operand's value |
| Arithmetic.ModValueRange | src/cfractions.c:925-960 | the floored remainder `u - floor(u/v) * v` lies between 0 and the divisor, on the divisor's side |
| Arithmetic.FractionsAdd | src/cfractions.c:366-404 | the sum is canonical and its value is the sum of the values |
| Arithmetic.FractionLongAdd | src/cfractions.c:415-438 | fraction plus integer: canonical, value `f + i` |
| Arithmetic.Add | src/cfractions.c:440-454 | the `+` slot (either operand a fraction): canonical, value the sum of the operands' values |
| Arithmetic.FractionsSubtract | src/cfractions.c:1257-1295 | the difference is canonical with value `a - b` |
| Arithmetic.FractionLongSubtract | src/cfractions.c:1306-1330 | fraction minus integer: canonical, value `f - i` |
| Arithmetic.LongFractionSubtract | src/cfractions.c:1332-1357 | integer minus fraction: canonical, value `i - f` |
| Arithmetic.Subtract | src/cfractions.c:1332-1357 | the `-` slot: canonical, value the difference of the operands' values |
| Arithmetic.SubtractFromInt | src/cfractions.c:1341-1348 | integer minus fraction builds a fresh object whose state is canonical with value `i - f` |
| Arithmetic.FractionsMultiply | src/cfractions.c:800-859 | reducing each numerator against the other denominator, then multiplying, gives a canonical product with no final gcd; its value is the product |
| Arithmetic.FractionLongMultiply | src/cfractions.c:875-907 | fraction times integer, cancelling the gcd of the integer and the denominator: canonical, value `f * i` |
| Arithmetic.Multiply | src/cfractions.c:909-923 | the `*` slot: canonical, value the product of the operands' values |
| Arithmetic.FractionsTrueDivide | src/cfractions.c:1542-1611 | ZeroDivisionError exactly when the divisor is 0; otherwise a canonical quotient (sign flipped onto the numerator) with value `a / b` |
| Arithmetic.FractionLongTrueDivide | src/cfractions.c:1757-1799 | fraction over integer: an error exactly for 0; otherwise canonical with value `f / i` |
| Arithmetic.LongFractionTrueDivide | src/cfractions.c:1801-1843 | integer over fraction: an error exactly for a zero fraction; otherwise canonical with value `i / f` |
| Arithmetic.TrueDivide | src/cfractions.c:1845-1872 | the `/` slot: an error exactly for a zero divisor; otherwise canonical with the quotient's value |
| Arithmetic.InverseValue | src/cfractions.c:1542-1611 | the swapped pair of a nonzero fraction has value `1 / f` |
| Arithmetic.FractionsFloorDivide | src/cfractions.c:508-561 | an error exactly for a zero divisor; otherwise the floor of the real quotient, though the gcds are cancelled first |
| Arithmetic.FractionLongFloorDivide | src/cfractions.c:563-589 | fraction `//` integer: an error exactly for 0, otherwise `floor(f / i)` |
| Arithmetic.LongFractionFloorDivide | src/cfractions.c:591-617 | integer `//` fraction: an error exactly for a zero fraction, otherwise `floor(i / f)` |
| Arithmetic.FloorDivide | src/cfractions.c:619-646 | the `//` slot: an error exactly for a zero divisor, otherwise the floor of the quotient of the values |
| Arithmetic.FractionsRemainder | src/cfractions.c:925-960 | an error exactly for a zero divisor; otherwise a canonical remainder whose value is `a - floor(a/b) * b` |
| Arithmetic.FractionLongRemainder | src/cfractions.c:962-988 | fraction `%` integer: the same, with an integer divisor |
| Arithmetic.LongFractionRemainder | src/cfractions.c:990-1015 | integer `%` fraction: the same, with an integer dividend |
| Arithmetic.FractionRemainder | src/cfractions.c:1017-1031 | the remainder of a fraction by any operand, as used by `pow` with a modulus |
| Arithmetic.Remainder | src/cfractions.c:1033-1046 | the `%` slot: an error exactly for a zero divisor, otherwise the floored remainder of the values |
| Arithmetic.FractionsDivmod | src/cfractions.c:670-711 | ZeroDivisionError exactly for a zero divisor; otherwise the pair of `floor(a / b)` and a remainder of value `a - floor(a/b) * b`, canonical for canonical inputs |
| Arithmetic.FractionLongDivmod | src/cfractions.c:713-741 | as above, a fraction by an integer |
| Arithmetic.LongFractionDivmod | src/cfractions.c:743-771 | as above, an integer by a fraction |
| Arithmetic.Divmod | src/cfractions.c:773-798 | the `divmod` slot: an error exactly for a zero divisor; otherwise the floored quotient of the values and a canonical floored remainder |
| ArithmeticLaws.AddCommutative | src/cfractions.c:366-404 | `a + b == b + a` |
| ArithmeticLaws.AddAssociative | src/cfractions.c:366-404 | `(a + b) + c == a + (b + c)` |
| ArithmeticLaws.AddZero | src/cfractions.c:366-404 | 0/1 is neutral on both sides |
| ArithmeticLaws.SubtractSelf | src/cfractions.c:1257-1295 | `a - a == 0/1` |
| ArithmeticLaws.SubtractIsAddNegative | src/cfractions.c:1257-1295 | `a - b == a + (-b)` |
| ArithmeticLaws.MultiplyCommutative | src/cfractions.c:800-859 | `a * b == b * a` |
| ArithmeticLaws.MultiplyAssociative | src/cfractions.c:800-859 | `(a * b) * c == a * (b * c)` |
| ArithmeticLaws.MultiplyZero | src/cfractions.c:800-859 | 0/1 is absorbing on both sides |
| ArithmeticLaws.MultiplyOne | src/cfractions.c:800-859 | 1/1 is neutral on both sides |
| ArithmeticLaws.MultiplyDistributes | src/cfractions.c:800-859 | `a * (b + c) == a * b + a * c` |
| ArithmeticLaws.DivideThenMultiply | src/cfractions.c:1542-1611 | for a nonzero divisor, `(a / b) * b == a` |
| ArithmeticLaws.MixedAgreesWithFractions | src/cfractions.c:415-454 | the mixed `+`, `-` and `*` give exactly what the fraction-fraction forms give on the integer taken as `i/1` |
| ArithmeticLaws.MixedDivisionAgreesWithFractions | src/cfractions.c:508-646 | the same for `/`, `//` and `%` |
| ArithmeticLaws.FractionDivisionLaw | src/cfractions.c:925-960 | `a == (a // b) * b + a % b`, with the remainder between 0 and `b`, on `b`'s side |
| ArithmeticLaws.FloorModLaw | src/cfractions.c:1033-1046 | the same law for the typed slots with any operand mix |
| ArithmeticLaws.DivmodIsFloorDivideAndRemainder | src/cfractions.c:648-798 | `divmod(x, y)` is the pair `(x // y, x % y)`, and it errs exactly when they do |
| Powers.IntegerPower | src/cfractions.c:1153-1174 | an integral base uses integer `pow`: canonical `n^e` reduced by the integer modulus; modulus 0 is a ValueError |
| Powers.ApplyModulo | src/cfractions.c:1175-1198 | applying the modulus by remainder gives the reduced value; a zero modulus is a ZeroDivisionError |
| Powers.FractionLongPower | src/cfractions.c:1115-1200 | zero to a negative power is ZeroDivisionError; a zero modulus errs (ValueError for an integral base, else ZeroDivisionError); otherwise the result is canonical with value `(f^e) mod m`, inverting with sign normalisation for `e < 0` |
| Powers.FractionsPower | src/cfractions.c:1209-1224 | a non-integral exponent goes to the float path; an integral one gives the `FractionLongPower` outcome |
| Powers.LongFractionPowerAsWritten | src/cfractions.c:1048-1113 | the integer-base branch as written: the float path exactly for a non-integral exponent, the same errors, the exact value `(i^e) mod m`, and a nested result exactly for a non-negative exponent with a nonzero fraction modulus |
| Powers.NegativeBaseCounterexample | src/cfractions.c:1056-1086 | `(-2) ** Fraction(-1)` comes out as `1/(-2)`, which is not canonical |
| Powers.FractionModulusCounterexample | src/cfractions.c:1087-1103 | `pow(2, Fraction(1), Fraction(3, 2))` has the fraction 1/2 as its numerator |
| Powers.LongFractionPower | src/cfractions.c:1048-1113 | the corrected integer-base power: never nested, canonical, value `(i^e) mod m` |
| Powers.CorrectedPowerAgrees | src/cfractions.c:1048-1113 | where the source gives a fraction, the corrected form gives one of the same value; the same inputs err |
| Powers.Power | src/cfractions.c:1226-1255 | the `pow` slot: float path exactly for a non-integral exponent or a negative int power of a nonzero int; the error cases; otherwise canonical `(x^e) mod m`, taking the corrected integer-base branch (see Left out) |
| Powers.PowerOne | src/cfractions.c:1115-1200 | `f ** 1 == f` |
| Powers.PowerZero | src/cfractions.c:1115-1200 | `f ** 0 == 1/1` |
| Powers.PowerAdd | src/cfractions.c:1115-1200 | `f ** (e1 + e2) == f ** e1 * f ** e2` for all integer exponents of a nonzero base, and for non-negative exponents of zero |
| Powers.PowerInverse | src/cfractions.c:1115-1200 | `f ** e * f ** -e == 1/1` for a nonzero base |
| Comparison.CrossOrder | src/cfractions.c:263-287 | for canonical pairs, cross-product order is value order and equal values mean equal components |
| Comparison.FractionsRichCompare | src/cfractions.c:263-287 | each of the six operators, on components and cross products, is that comparison of the values |
| Comparison.FractionLongRichCompare | src/cfractions.c:289-316 | against an integer: `==` asks for den 1 and an equal numerator, orderings scale the integer; each is that comparison of the values |
| Comparison.RichCompare | src/cfractions.c:289-335 | the comparison slot compares the exact values of either operand kind |
| Comparison.IntegerComparisonAgrees | src/cfractions.c:289-316 | comparing with `i` is comparing with `i/1` |
| Comparison.EqualityIsValueEquality | src/cfractions.c:263-287 | `==` is value equality and `!=` its negation |
| Comparison.OrderLaws | src/cfractions.c:263-287 | `<=` is reflexive, total, antisymmetric and transitive; `<`, `>` and `>=` are its strict, mirrored and converse forms |
| Hashing.IntHash | src/cfractions.c:1874-1921 | the host integer hash is never -1, lies within the prime, and keeps the sign |
| Hashing.Hash | src/cfractions.c:1874-1921 | the fraction hash is never -1, lies within the prime, and is non-negative for a non-negative numerator |
| Hashing.IntegralHash | src/cfractions.c:1874-1921 | `hash(Fraction(i)) == hash(i)` |
| Hashing.HashRespectsValue | src/cfractions.c:1874-1921 | equal fractions hash equal |
| Hashing.MultipleOfModulusHash | src/cfractions.c:1884-1894 | a denominator divisible by the prime hashes as the infinity constant |
| Rounding.Floor | src/cfractions.c:499-501 | `n // d` is the floor of the value |
| Rounding.Ceil | src/cfractions.c:465-476 | `-((-n) // d)` is the least integer at or above the value |
| Rounding.Trunc | src/cfractions.c:861-864 | rounds toward zero: the floor for non-negative values, the ceiling for negative ones |
| Rounding.RoundPlain | src/cfractions.c:1618-1674 | the comparison of `2m` with `d` picks the nearest integer, the even one on a tie |
| Rounding.RoundPlainNearest | src/cfractions.c:1618-1674 | no integer is closer to the value than `round(f)` |
| Rounding.NearestEvenUnique | src/cfractions.c:1618-1674 | the nearest-even integer is unique |
| Rounding.RoundedAtUnique | src/cfractions.c:1676-1755 | a value has only one rounding at a given scale |
| Rounding.Round | src/cfractions.c:1676-1755 | `round(f, p)` is canonical and is `f` rounded half to even at the `p`-th decimal (at `10^-p` for negative `p`) |
| Rounding.RoundToTens | src/cfractions.c:1687-1719 | a negative precision rounds `f / 10^k` and scales back: a multiple of `10^k` nearest to `f` |
| Rounding.RoundToDigits | src/cfractions.c:1720-1744 | a non-negative precision rounds `f * 10^p` over `10^p`, reduced |
| Rounding.RoundZeroDigits | src/cfractions.c:1676-1755 | `round(f, 0)` is `round(f)` as a fraction |
| Limiting.ExpansionStep | src/cfractions.c:1387-1439 | one continued-fraction step keeps the loop invariant: the remaining pair reconstructs `f` from the two convergents, the determinant is ±1, and the denominators stay within the bound |
| Limiting.ExpansionEnd | src/cfractions.c:1440-1526 | when the loop stops, both bounds are canonical, the first within the bound, and the second within `1/max` of `f` |
| Limiting.LimitDenominator | src/cfractions.c:1359-1526 | ValueError exactly for `max < 1`; `f` itself when `den <= max`; otherwise a canonical fraction with `den <= max` within `1/max` of `f` |
| Limiting.LimitDenominatorDefault | src/cfractions.c:1528-1540 | with the default bound 1000000 the call always succeeds with that guarantee |
| Prototype.FloorModSmaller | src/main.cpp:194-199 | the floored remainder is smaller in magnitude than the divisor, so `to_gcd` terminates |
| Prototype.EuclidLoopGcd | src/main.cpp:258-266 | the loop's result has the gcd as its magnitude |
| Prototype.ToGcd | src/main.cpp:258-266 | `to_gcd` runs the loop from `(max, min)`; the result divides both arguments, its magnitude is their gcd, and it is nonzero unless both are 0 |
| Prototype.NegativeGcdExample | src/main.cpp:258-266 | the result may be negative: `to_gcd(6, -4) == -2` |
| Prototype.PrototypeFraction.constructor | src/main.cpp:270-279 | dividing by the signed gcd and flipping signs gives a canonical pair with the input's value |
| Prototype.PrototypeFraction.Absolute | src/main.cpp:281 | `abs()` is a fresh valid fraction with the numerator's magnitude and the same denominator |
| Prototype.PrototypeFraction.Equals | src/main.cpp:287-290 | for valid fractions, component-wise `==` is value equality |
| Prototype.NewPrototypeFraction | src/main.cpp:309-315 | ZeroDivisionError exactly for a zero denominator; otherwise a fresh valid fraction with the pair's value |

## Left out

- Floating point is left out: construction from a `float`, `float(f)`, comparisons with floats, the `FractionFloat_*` branches of the dispatchers, and non-integral exponents. `Powers` returns `Inexact` where the code takes the float path.
- Reference counting, `PyObject_New` failures, `Fraction_dealloc` and the module and type tables are memory and registration glue, with no effect on values.
- The pybind11 `Object`/`Int` wrappers are left out. The prototype's integers are Dafny `int`, with `/` and `%` floored as in Python.
- String parsing, `str`/`repr`, `__copy__`, `__deepcopy__`, pickling, `+f` and `as_integer_ratio` are left out. They concern presentation, identity or serialisation, not arithmetic.
- `cfractions/_fractions.py` is left out because it delegates to the standard `fractions` module, whose code is not part of this model.
- A non-`int` `max_denominator` or `ndigits` is left out. The code passes it unconverted to the host's comparison, power and floor-division operators, so its behaviour is the host's.
- Hashing.Hash: it does not prove that `d^(M-2) mod M` is the modular inverse of `d`. That needs Fermat's little theorem. The hash is modelled for 64-bit builds only, with modulus `2^61 - 1`.
- Limiting.LimitDenominator: it does not say which of the two final bounds it returns. The body keeps the code's rule, the closer one with ties going to the second. Optimality among all fractions with denominator `<= max` is not proved either. The contract states the `1/max` error bound.
- Powers.Power requires one argument to be a fraction. With three host integers the call is the host's own `pow` and never reaches this code.
- Powers.Power: the integer-base, fraction-exponent case of the slot (src/cfractions.c:1241-1243) is modelled with the corrected branch `Powers.LongFractionPower`, not the branch as written. So its `!r.Nested?` and `Canonical(r.f)` describe the corrected program. The source instead gives the pair `(1, -2)` for `pow(-2, Fraction(-1))` and a nested fraction for `pow(2, Fraction(1), Fraction(3, 2))`. Both are listed under "## Findings", and `Powers.LongFractionPowerAsWritten` models them.
- Prototype.PrototypeFraction.constructor requires a nonzero denominator. The binding rejects 0 first (`NewPrototypeFraction`). A direct C++ construction with 0 would divide by 0 on the host and is not modelled.
- Non-canonical fraction objects are left out as operands. Most operations `require` canonical inputs, and that `requires` does not cover the non-canonical objects the source can produce: the pair `(1, -2)` and the nested fraction of the two findings, and the pair a repeated single-integer `__init__` stores.

## Findings

| source | as written | input that shows it | evidently intended | confidence | as-written member | corrected member |
|---|---|---|---|---|---|---|
| src/cfractions.c:1056-1086 | a negative integral exponent on an integer base builds `1 / base^|e|` without moving the sign to the numerator | `(-2) ** Fraction(-1)` gives the pair `(1, -2)` | `-1/2`, canonical like every other result | not executed | Powers.NegativeBaseCounterexample | Powers.LongFractionPower |
| src/cfractions.c:1087-1103 | a non-negative integral exponent with a fraction modulus stores the result of `pow(base, e, modulo)`, itself a `Fraction`, as the numerator of a new fraction | `pow(2, Fraction(1), Fraction(3, 2))` gives a fraction whose numerator is the fraction `1/2` | the fraction `1/2` itself | not executed | Powers.FractionModulusCounterexample | Powers.LongFractionPower |
