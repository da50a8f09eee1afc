# Prime-curve parameter generator, modelled in Dafny

This project models the parameter derivation and validation engine of the
curve generator `mk/generate_curves.py`. The generator takes three short-Weierstrass
prime curves: P-256, P-384 and P-521 from section 3.2.1 of NIST SP 800-186.
For each one it checks that the record is consistent. It then derives the
numbers that a Rust template needs, most of them in Montgomery form.

- `py_int.dfy`, module `PyInt`: the Python integer operations the generator
  relies on. These are `2**k`, `int.bit_length`, the floored `%` and `"%d"`. The
  module also holds the number theory behind the modular inverse: divisibility
  and the greatest common divisor. `Gcd` is Euclid's recursion. It is proved to
  be the one greatest common divisor defined by divisibility (`IsGcd`).
- `generate_curves.dfy`, module `GenerateCurves`:
  - `whole_bit_length` (`WholeBitLength`) and `to_montgomery` (`ToMontgomery`).
  - The extended Euclidean algorithm (`ExtendedGcd`). It is an imperative method
    with a `while` loop, as in the source.
  - `modinv` (`ModInv`), which returns a `Result`.
  - `format_curve_name` and `format_prime_curve` (`FormatCurveName`,
    `FormatPrimeCurve`). The second returns a `Result<ParamSet, Error>`. A
    `ParamSet` is a record of the named numbers that the template receives.
- `builtin_curves.dfy`, module `BuiltInCurves`: the three built-in records.
  Lemmas show that each record passes the checks. For each record, the
  polynomial form of q and of n is proved equal to its literal. Further lemmas
  give the curve names, and the P-256 base point in Montgomery form checked
  against an independent computation of `(x * 2^256) mod q`.

Python's integers are unbounded, like Dafny's `int`, so no width is modelled.
Python's `%` with a negative modulus gives a result with the modulus's sign.
This is modelled by `PyInt.FloorMod`, because Dafny's `%` is Euclidean. In
`extended_gcd`, `divmod` only ever runs on a non-negative dividend and a
positive divisor. There the two conventions agree.

Behaviour of the code worth noting:
- The checks run in the order a, cofactor, q, n, and the first failing one
  decides the error (mk/generate_curves.py:191-200).
- `modinv` with a negative modulus m returns a residue in `(m, 0]`, because
  Python's `%` takes the sign of the modulus (mk/generate_curves.py:183).
- The curve's name is `"p"` followed by the bit length of q, for example
  `"p256"` (mk/generate_curves.py:186).
- Each Montgomery conversion uses the limb-aligned width of its own modulus, so
  `oneRR_mod_n` uses the width of n (mk/generate_curves.py:164-165, 218).

## Model

| member | source | states |
|---|---|---|
| `PyInt.Pow2` | mk/generate_curves.py:165 | `2**k` (also the `2**whole_bit_length(q)` of line 210 and the q and n formulas of lines 230-256) is a positive natural; with `PyInt.Pow2Add` it turns exponent sums into products |
| `PyInt.Pow2Add` | mk/generate_curves.py:165 | 2^(j+k) == 2^j * 2^k for all naturals j and k |
| `PyInt.BitLength` | mk/generate_curves.py:162 | `x.bit_length()` is a k with 2^(k-1) <= abs(x) < 2^k (k = 0 only for x = 0) |
| `PyInt.BitLengthIsLeast` | mk/generate_curves.py:162 | no width smaller than `bit_length` holds abs(x) |
| `PyInt.FloorMod` | mk/generate_curves.py:165 | Python's `x % m`: the result lies in [0, m) for m > 0 and in (m, 0] for m < 0, and is congruent to x modulo abs(m) |
| `PyInt.FloorModCongruent` | mk/generate_curves.py:183 | `x % m` depends only on the residue class of x |
| `PyInt.GcdIsGreatestCommonDivisor` | mk/generate_curves.py:169-178 | the gcd that Euclid's recursion computes divides both arguments, and every common divisor divides it |
| `PyInt.GcdUnique` | mk/generate_curves.py:169-178 | any greatest common divisor in the divisibility sense equals `Gcd` |
| `PyInt.Decimal` | mk/generate_curves.py:186 | `"%d"` renders a natural as a non-empty string of decimal digits with no leading zero; a string starting with `0` is exactly `"0"`, for n = 0 |
| `PyInt.DecimalRoundTrip` | mk/generate_curves.py:186 | reading the `"%d"` digits back gives the number |
| `GenerateCurves.LimbBits` | mk/generate_curves.py:19 | the limb width `limb_bits`, 32 |
| `GenerateCurves.CurveSpec` | mk/generate_curves.py:229-263 | a curve record: q and its formula, n and its formula, a, b, Gx, Gy and the cofactor |
| `GenerateCurves.ParamSet` | mk/generate_curves.py:206-220 | the named values substituted into the template |
| `GenerateCurves.WholeBitLength` | mk/generate_curves.py:161-162 | the width is a multiple of 32 (line 19), is at least `bit_length(p)` and is less than `bit_length(p) + 32` |
| `GenerateCurves.WholeBitLengthIsLeast` | mk/generate_curves.py:161-162 | no smaller multiple of 32 is at least `bit_length(p)` |
| `GenerateCurves.ToMontgomery` | mk/generate_curves.py:164-165 | the result is a canonical residue modulo p (sign of p) congruent to x * 2^whole_bit_length(p), negative x included |
| `GenerateCurves.MontgomeryAdditive` | mk/generate_curves.py:164-165 | conversion is additive modulo p |
| `GenerateCurves.MontgomeryMultiplicative` | mk/generate_curves.py:164-165 | the product of two Montgomery forms equals the Montgomery form of the product times R, modulo p |
| `GenerateCurves.MontgomeryRoundTrip` | mk/generate_curves.py:164-165 | multiplying a Montgomery form by an inverse of R modulo p gives back x mod p |
| `GenerateCurves.RSquaredConverts` | mk/generate_curves.py:210 | Montgomery-multiplying x by `to_montgomery(2**w, p)` (R^2 mod p) gives `to_montgomery(x, p)` |
| `GenerateCurves.ExtendedGcd` | mk/generate_curves.py:169-178 | returns g = gcd(abs(aa), abs(bb)) and sign-adjusted Bézout coefficients with g == x*aa + y*bb; the loop keeps both Bézout identities and the gcd, and rem >= 0 decreases |
| `GenerateCurves.ModInv` | mk/generate_curves.py:168-183 | fails with NotInvertible exactly when the gcd is not 1, and with a division by zero when the gcd is 1 and m == 0; otherwise returns an inverse of a modulo m, in [0, m) with (a * r) % m == 1 % m for m > 0 and in (m, 0] for m < 0 |
| `GenerateCurves.InverseOnlyIfCoprime` | mk/generate_curves.py:180-182 | if any inverse of a modulo m exists then the gcd is 1, so raising when it is not loses no answer |
| `GenerateCurves.InverseUnique` | mk/generate_curves.py:183 | for m > 0 the inverse in [0, m) is unique, so `x % m` is the only answer |
| `GenerateCurves.FormatCurveName` | mk/generate_curves.py:185-186 | the name is `p` followed by decimal digits that read back as `bit_length(q)`, with no leading zero; a name whose digits start with `0` is exactly `"p0"`, for bit length 0 |
| `GenerateCurves.FormatPrimeCurve` | mk/generate_curves.py:188-220 | rejects a != -3, then cofactor != 1, then q != q_formula, then n != n_formula; a zero q or n fails on reduction; succeeds exactly when all checks pass and q, n are nonzero |
| `GenerateCurves.DerivedPlainFields` | mk/generate_curves.py:201-219 | on success bits is `bit_length(q)`, name is `format_curve_name`, q and n are copied, q_minus_n is q - n, and the n_minus_2 value is n - 2 |
| `GenerateCurves.DerivedFieldConstants` | mk/generate_curves.py:210-216 | on success one is R mod q, q_rr is R^2 mod q, and a, b, Gx, Gy are each x * R mod q for R = 2^whole_bit_length(q) |
| `GenerateCurves.DerivedFieldConstantsDecode` | mk/generate_curves.py:210-216 | leaving the Montgomery domain recovers 1, -3, b, Gx and Gy mod q from the derived constants, and Montgomery multiplication by q_rr converts any x |
| `GenerateCurves.DerivedScalarRSquared` | mk/generate_curves.py:218 | oneRR_mod_n, `to_montgomery(1, n)**2 % n`, is R_n^2 mod n for R_n = 2^whole_bit_length(n) |
| `GenerateCurves.OneSquared` | mk/generate_curves.py:218 | the square of the Montgomery form of 1 is R^2 modulo p |
| `BuiltInCurves.Curves` | mk/generate_curves.py:277 | the curves the generator processes, in order: P-256, P-384, P-521 |
| `BuiltInCurves.P256` | mk/generate_curves.py:229-239 | the P-256 record: literal and polynomial q and n, a = -3, b, the base point and cofactor 1 |
| `BuiltInCurves.P384` | mk/generate_curves.py:241-251 | the P-384 record |
| `BuiltInCurves.P521` | mk/generate_curves.py:253-263 | the P-521 record |
| `BuiltInCurves.P256Supported` | mk/generate_curves.py:229-239 | P-256's polynomial forms of q and n equal their literals, a is -3 and the cofactor 1 |
| `BuiltInCurves.P384Supported` | mk/generate_curves.py:241-251 | the same for P-384 |
| `BuiltInCurves.P521Supported` | mk/generate_curves.py:253-263 | the same for P-521 |
| `BuiltInCurves.BuiltInCurvesAccepted` | mk/generate_curves.py:277-278 | `format_prime_curve` succeeds on each of the three records that the generator processes |
| `BuiltInCurves.BuiltInBitLengths` | mk/generate_curves.py:229-263 | the field moduli have 256, 384 and 521 bits |
| `BuiltInCurves.BuiltInCurveNames` | mk/generate_curves.py:185-186 | the curves are named p256, p384 and p521 |
| `BuiltInCurves.P256BasePointInMontgomeryForm` | mk/generate_curves.py:215-216 | P-256's Gx and Gy in Montgomery form equal independently computed values of (x * 2^256) mod q |
| `BuiltInCurves.P256MutatedQRejected` | mk/generate_curves.py:195-200 | changing P-256's literal q, its polynomial form, or its literal n by one is rejected as a formula mismatch |
| `BuiltInCurves.P256OtherARejected` | mk/generate_curves.py:191-192 | P-256 with a = -2 is rejected as an unsupported a |

## Left out

- The `curve_template` text and the `%` substitution into it (mk/generate_curves.py:21-154, 206). They are string formatting only. The model returns the substituted values as a `ParamSet` record.
- The hexadecimal rendering of `n - 2` and its wrapping with `textwrap.wrap` for a comment (mk/generate_curves.py:204). `ParamSet.nMinus2` holds the value `n - 2` instead.
- `limb_count` (mk/generate_curves.py:201). It is computed and never used.
- `generate_prime_curve_file` and the top-level loop (mk/generate_curves.py:265-278). They create a directory, write a file and run `rustfmt`, which is I/O and an external tool. `BuiltInCurves.Curves` records the order in which the loop visits the curves.
- The unused imports `math`, `random` and `sys`.
- The text of the `ValueError` messages. Each raise is a distinct `Error` value.
- Curve records are Python dictionaries. A missing key (`KeyError`) or a non-integer value cannot happen in the `CurveSpec` datatype.
- ToMontgomery: requires a nonzero modulus. Python raises ZeroDivisionError there. `FormatPrimeCurve` and `ModInv`, which can reach that case, return it as the `ZeroDivision` error instead.
- FloorMod: requires a nonzero modulus, for the same reason. Every use of `%` that can see a zero modulus sits inside `ModInv` or `FormatPrimeCurve`, which return `ZeroDivision` there.
- The nesting of `extended_gcd` inside `modinv`. Here it is a method of its own.
