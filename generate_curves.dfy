/** The parameter derivation and validation engine of the prime-curve generator:
    limb-aligned widths, conversion into the Montgomery domain, the modular
    inverse by the extended Euclidean algorithm, and the checks and derived
    constants of one curve record. */
module GenerateCurves {
  import opened PyInt

  datatype Result<T, E> = Success(value: T) | Failure(error: E)

  /** The exceptions the generator raises. */
  datatype Error =
    | NotInvertible        // modinv: the gcd is not 1
    | UnsupportedA         // the curve coefficient a is not -3
    | UnsupportedCofactor  // the cofactor is not 1
    | QFormulaMismatch     // the polynomial form of q differs from its literal
    | NFormulaMismatch     // the polynomial form of n differs from its literal
    | ZeroDivision         // a reduction modulo 0 (Python's ZeroDivisionError)

  /** Width in bits of one limb of the arithmetic the generated tables feed. */
  const LimbBits: nat := 32

  /** The bit length of `p` rounded up to a whole number of limbs. */
  function WholeBitLength(p: int): (r: nat)
    ensures r % LimbBits == 0
    ensures BitLength(p) <= r < BitLength(p) + LimbBits
  {
    (BitLength(p) + LimbBits - 1) / LimbBits * LimbBits
  }

  /** No smaller whole number of limbs holds `p`. */
  lemma WholeBitLengthIsLeast(p: int, k: nat)
    requires k % LimbBits == 0 && BitLength(p) <= k
    ensures WholeBitLength(p) <= k
  {
  }

  /** The Montgomery radix R = 2^WholeBitLength(p) of modulus `p`. */
  function MontR(p: int): nat
  {
    Pow2(WholeBitLength(p))
  }

  /** `x` in Montgomery form modulo `p`: the residue of `x * R` with Python's sign
      convention. Defined for negative `x` too (the coefficient a = -3). */
  function ToMontgomery(x: int, p: int): (r: int)
    requires p != 0
    ensures p > 0 ==> 0 <= r < p
    ensures p < 0 ==> p < r <= 0
    ensures Divides(Abs(p), r - x * MontR(p))
  {
    var r := FloorMod(x * MontR(p), p);
    DividesLinear(Abs(p), x * MontR(p) - r, 0, -1, 0);
    r
  }

  /** The conversion is additive modulo `p`. */
  lemma MontgomeryAdditive(x: int, y: int, p: int)
    requires p != 0
    ensures ToMontgomery(x + y, p) == FloorMod(ToMontgomery(x, p) + ToMontgomery(y, p), p)
  {
    var R := MontR(p);
    var mx, my := ToMontgomery(x, p), ToMontgomery(y, p);
    DividesLinear(Abs(p), mx - x * R, my - y * R, 1, 1);
    assert (mx - x * R) + (my - y * R) == (mx + my) - (x + y) * R;
    FloorModCongruent(mx + my, (x + y) * R, p);
  }

  /** Multiplying two Montgomery forms gives the Montgomery form of the product
      times R, which Montgomery reduction then divides out. */
  lemma MontgomeryMultiplicative(x: int, y: int, p: int)
    requires p != 0
    ensures FloorMod(ToMontgomery(x, p) * ToMontgomery(y, p), p)
         == FloorMod(ToMontgomery(x * y, p) * MontR(p), p)
  {
    var R := MontR(p);
    var mx, my, mxy := ToMontgomery(x, p), ToMontgomery(y, p), ToMontgomery(x * y, p);
    ProductCore(Abs(p), mx, my, mxy, x, y, R);
    FloorModCongruent(mx * my, mxy * R, p);
  }

  /** Leaving the Montgomery domain: multiplying by an inverse of R modulo `p`
      gives back `x` modulo `p`. */
  lemma MontgomeryRoundTrip(x: int, p: int, rInv: int)
    requires p != 0 && Divides(Abs(p), MontR(p) * rInv - 1)
    ensures FloorMod(ToMontgomery(x, p) * rInv, p) == FloorMod(x, p)
  {
    var mx := ToMontgomery(x, p);
    RoundTripCore(Abs(p), mx, x, MontR(p), rInv);
    FloorModCongruent(mx * rInv, x, p);
  }

  /** Montgomery-multiplying `x` by R^2 mod `p` (the generated `q_rr`) puts `x`
      into the Montgomery domain. */
  lemma RSquaredConverts(x: int, p: int, rInv: int)
    requires p != 0 && Divides(Abs(p), MontR(p) * rInv - 1)
    ensures FloorMod(x * ToMontgomery(MontR(p), p) * rInv, p) == ToMontgomery(x, p)
  {
    var R := MontR(p);
    var rr := ToMontgomery(R, p);
    RSquaredCore(Abs(p), rr, x, R, rInv);
    FloorModCongruent(x * rr * rInv, x * R, p);
  }

  // The congruence reasoning of the lemmas above, over plain integers.

  lemma ProductCore(m: nat, mx: int, my: int, mxy: int, x: int, y: int, R: int)
    requires Divides(m, mx - x * R) && Divides(m, my - y * R) && Divides(m, mxy - (x * y) * R)
    ensures Divides(m, mx * my - mxy * R)
  {
    DividesMultiple(m, 0);
    CongruentMul(m, mx, x * R, my, y * R);
    CongruentMul(m, mxy, (x * y) * R, R, R);
    assert (x * R) * (y * R) == ((x * y) * R) * R;
    DividesLinear(m, mx * my - (x * R) * (y * R), mxy * R - ((x * y) * R) * R, 1, -1);
    assert (mx * my - (x * R) * (y * R)) - (mxy * R - ((x * y) * R) * R) == mx * my - mxy * R;
  }

  lemma RoundTripCore(m: nat, mx: int, x: int, R: int, rInv: int)
    requires Divides(m, mx - x * R) && Divides(m, R * rInv - 1)
    ensures Divides(m, mx * rInv - x)
  {
    DividesMultiple(m, 0);
    CongruentMul(m, mx, x * R, rInv, rInv);
    CongruentMul(m, x, x, R * rInv, 1);
    assert x * (R * rInv) == (x * R) * rInv;
    DividesLinear(m, mx * rInv - (x * R) * rInv, x * (R * rInv) - x * 1, 1, 1);
  }

  lemma RSquaredCore(m: nat, rr: int, x: int, R: int, rInv: int)
    requires Divides(m, rr - R * R) && Divides(m, R * rInv - 1)
    ensures Divides(m, x * rr * rInv - x * R)
  {
    DividesMultiple(m, 0);
    CongruentMul(m, x, x, rr, R * R);
    CongruentMul(m, x * rr, x * (R * R), rInv, rInv);
    CongruentMul(m, x * R, x * R, R * rInv, 1);
    assert x * (R * R) * rInv == (x * R) * (R * rInv);
    DividesLinear(m, x * rr * rInv - x * (R * R) * rInv, (x * R) * (R * rInv) - (x * R) * 1, 1, 1);
  }

  /** The extended Euclidean algorithm: `g` is the greatest common divisor of
      `|aa|` and `|bb|`, and `s`, `t` are Bézout coefficients for `aa`, `bb`. */
  method ExtendedGcd(aa: int, bb: int) returns (g: nat, s: int, t: int)
    ensures g == Gcd(Abs(aa), Abs(bb))
    ensures g == s * aa + t * bb
  {
    var a, b := Abs(aa), Abs(bb);
    var lastRem, rem := a, b;
    var x: int, lastX: int, y: int, lastY: int := 0, 1, 1, 0;
    while rem != 0
      invariant lastRem == lastX * a + lastY * b
      invariant rem == x * a + y * b
      invariant Gcd(lastRem, rem) == Gcd(a, b)
      decreases rem
    {
      // Python's divmod: with a positive divisor it agrees with Dafny's / and %
      var quotient, r := lastRem / rem, lastRem % rem;
      BezoutStep(lastRem, rem, quotient, r, lastX, lastY, x, y, a, b);
      lastRem, rem := rem, r;
      x, lastX := lastX - quotient * x, x;
      y, lastY := lastY - quotient * y, y;
    }
    g := lastRem;
    s := lastX * (if aa < 0 then -1 else 1);
    t := lastY * (if bb < 0 then -1 else 1);
    SignAdjust(lastX, aa);
    SignAdjust(lastY, bb);
  }

  /** Moving the sign of `v` onto the coefficient keeps the product. */
  lemma SignAdjust(c: int, v: int)
    ensures c * Abs(v) == (c * (if v < 0 then -1 else 1)) * v
  {
  }

  /** The remainder of one division step is again a combination of `a` and `b`. */
  lemma BezoutStep(lastRem: int, rem: int, quotient: int, r: int,
                   lastX: int, lastY: int, x: int, y: int, a: int, b: int)
    requires lastRem == quotient * rem + r
    requires lastRem == lastX * a + lastY * b && rem == x * a + y * b
    ensures r == (lastX - quotient * x) * a + (lastY - quotient * y) * b
  {
    assert quotient * rem == (quotient * x) * a + (quotient * y) * b;
  }

  /** `r` is an inverse of `a` modulo `m`. */
  predicate IsInverseMod(a: int, r: int, m: int)
  {
    m != 0 && Divides(Abs(m), a * r - 1)
  }

  /** The modular inverse of `a` modulo `m`, reduced with Python's `%`. */
  method ModInv(a: int, m: int) returns (r: Result<int, Error>)
    ensures r == Failure(NotInvertible) <==> Gcd(Abs(a), Abs(m)) != 1
    ensures r == Failure(ZeroDivision) <==> Gcd(Abs(a), Abs(m)) == 1 && m == 0
    ensures r.Success? <==> Gcd(Abs(a), Abs(m)) == 1 && m != 0
    ensures r.Success? ==> IsInverseMod(a, r.value, m)
    ensures r.Success? && m > 0 ==> 0 <= r.value < m && (a * r.value) % m == 1 % m
    ensures r.Success? && m < 0 ==> m < r.value <= 0
  {
    var g, x, y := ExtendedGcd(a, m);
    if g != 1 {
      return Failure(NotInvertible);
    }
    if m == 0 {
      return Failure(ZeroDivision);
    }
    var v := FloorMod(x, m);
    // a * v - 1 == -a * (x - v) - y * m, and |m| divides both terms
    DividesMultiple(Abs(m), if m < 0 then -1 else 1);
    DividesLinear(Abs(m), x - v, m, -a, -y);
    assert -a * (x - v) + -y * m == a * v - 1;
    if m > 0 {
      FloorModCongruent(a * v, 1, m);
    }
    r := Success(v);
  }

  /** Where ModInv fails with NotInvertible no inverse exists at all. */
  lemma InverseOnlyIfCoprime(a: int, r: int, m: int)
    requires IsInverseMod(a, r, m)
    ensures Gcd(Abs(a), Abs(m)) == 1
  {
    var g := Gcd(Abs(a), Abs(m));
    GcdIsGreatestCommonDivisor(Abs(a), Abs(m));
    DividesLinear(g, Abs(a), 0, if a < 0 then -1 else 1, 0);
    DividesLinear(g, Abs(m), 0, if m < 0 then -1 else 1, 0);
    DividesWitness(Abs(m), a * r - 1);
    var k := (a * r - 1) / Abs(m);
    // 1 == r * a - k * |m|, a combination of multiples of g
    DividesLinear(g, a, Abs(m), r, -k);
    assert r * a + -k * Abs(m) == 1;
    DividesAntisymmetric(g, 1);
  }

  /** For a positive modulus the inverse in [0, m) is unique, so ModInv returns
      the only possible answer. */
  lemma InverseUnique(a: int, r1: int, r2: int, m: int)
    requires m > 0 && IsInverseMod(a, r1, m) && IsInverseMod(a, r2, m)
    requires 0 <= r1 < m && 0 <= r2 < m
    ensures r1 == r2
  {
    // r1 == r1 * 1 ≡ r1 * (a * r2) == (a * r1) * r2 ≡ r2
    DividesMultiple(m, 0);
    CongruentMul(m, r1, r1, a * r2, 1);
    CongruentMul(m, a * r1, 1, r2, r2);
    assert r1 * (a * r2) == (a * r1) * r2;
    DividesLinear(m, r1 * (a * r2) - r1 * 1, (a * r1) * r2 - 1 * r2, -1, 1);
    DividesSmall(m, r1 - r2);
  }

  /** One curve record of the generator's table. The `...Formula` fields hold the
      value of the polynomial form, the others the literals. */
  datatype CurveSpec = CurveSpec(
    qFormula: int, q: int,
    nFormula: int, n: int,
    a: int, b: int,
    gx: int, gy: int,
    cofactor: int)

  /** The numbers substituted into the curve template. `nMinus2` is the value
      whose hexadecimal rendering the template shows in a comment. */
  datatype ParamSet = ParamSet(
    bits: nat, name: string,
    q: int, qRR: int, n: int, one: int,
    a: int, b: int, gx: int, gy: int,
    qMinusN: int, oneRRModN: int, nMinus2: int)

  /** `"p" + decimal bit length of q`, the curve's name. */
  function FormatCurveName(c: CurveSpec): (name: string)
    ensures |name| >= 2 && name[0] == 'p'
    ensures IsDecimal(name[1..]) && DecimalValue(name[1..]) == BitLength(c.q)
    ensures name[1] == '0' ==> BitLength(c.q) == 0 && name == "p0"
  {
    DecimalRoundTrip(BitLength(c.q));
    assert ("p" + Decimal(BitLength(c.q)))[1..] == Decimal(BitLength(c.q));
    "p" + Decimal(BitLength(c.q))
  }

  /** The curve record passes all four checks of the generator. */
  predicate Supported(c: CurveSpec)
  {
    c.a == -3 && c.cofactor == 1 && c.q == c.qFormula && c.n == c.nFormula
  }

  /** Validates a curve record and derives the template's numbers. The checks run
      in the order a, cofactor, q, n; a zero modulus then fails in the first
      reduction modulo it. */
  function FormatPrimeCurve(c: CurveSpec): (r: Result<ParamSet, Error>)
    ensures c.a != -3 ==> r == Failure(UnsupportedA)
    ensures c.a == -3 && c.cofactor != 1 ==> r == Failure(UnsupportedCofactor)
    ensures c.a == -3 && c.cofactor == 1 && c.q != c.qFormula ==> r == Failure(QFormulaMismatch)
    ensures c.a == -3 && c.cofactor == 1 && c.q == c.qFormula && c.n != c.nFormula
            ==> r == Failure(NFormulaMismatch)
    ensures Supported(c) && (c.q == 0 || c.n == 0) ==> r == Failure(ZeroDivision)
    ensures r.Success? <==> Supported(c) && c.q != 0 && c.n != 0
  {
    if c.a != -3 then Failure(UnsupportedA)
    else if c.cofactor != 1 then Failure(UnsupportedCofactor)
    else if c.q != c.qFormula then Failure(QFormulaMismatch)
    else if c.n != c.nFormula then Failure(NFormulaMismatch)
    else if c.q == 0 || c.n == 0 then Failure(ZeroDivision)
    else
      Success(ParamSet(
        bits := BitLength(c.q),
        name := FormatCurveName(c),
        q := c.q,
        qRR := ToMontgomery(Pow2(WholeBitLength(c.q)), c.q),
        n := c.n,
        one := ToMontgomery(1, c.q),
        a := ToMontgomery(c.a, c.q),
        b := ToMontgomery(c.b, c.q),
        gx := ToMontgomery(c.gx, c.q),
        gy := ToMontgomery(c.gy, c.q),
        qMinusN := c.q - c.n,
        oneRRModN := FloorMod(ToMontgomery(1, c.n) * ToMontgomery(1, c.n), c.n),
        nMinus2 := c.n - 2))
  }

  /** The derived numbers of an accepted curve that are taken over or offset. */
  lemma DerivedPlainFields(c: CurveSpec)
    requires Supported(c) && c.q != 0 && c.n != 0
    ensures var p := FormatPrimeCurve(c).value;
      && p.bits == BitLength(c.q) && p.name == FormatCurveName(c)
      && p.q == c.q && p.n == c.n
      && p.qMinusN == c.q - c.n && p.nMinus2 == c.n - 2
  {
  }

  /** The field constants of an accepted curve are canonical residues modulo q
      in Montgomery form: `one` is R mod q, `q_rr` is R^2 mod q, and a, b, Gx, Gy
      are x * R mod q for their values x. */
  lemma DerivedFieldConstants(c: CurveSpec)
    requires Supported(c) && c.q != 0 && c.n != 0
    ensures var p := FormatPrimeCurve(c).value;
      && p.one == FloorMod(MontR(c.q), c.q)
      && p.qRR == FloorMod(MontR(c.q) * MontR(c.q), c.q)
      && p.a == ToMontgomery(-3, c.q)
      && p.b == ToMontgomery(c.b, c.q)
      && p.gx == ToMontgomery(c.gx, c.q)
      && p.gy == ToMontgomery(c.gy, c.q)
  {
  }

  /** Leaving the Montgomery domain with an inverse of R modulo q recovers 1, a,
      b, Gx and Gy from the derived constants of an accepted curve, and
      Montgomery multiplication by `q_rr` converts any x into Montgomery form. */
  lemma DerivedFieldConstantsDecode(c: CurveSpec, rInv: int)
    requires Supported(c) && c.q != 0 && c.n != 0
    requires Divides(Abs(c.q), MontR(c.q) * rInv - 1)
    ensures var p := FormatPrimeCurve(c).value;
      && FloorMod(p.one * rInv, c.q) == FloorMod(1, c.q)
      && FloorMod(p.a * rInv, c.q) == FloorMod(-3, c.q)
      && FloorMod(p.b * rInv, c.q) == FloorMod(c.b, c.q)
      && FloorMod(p.gx * rInv, c.q) == FloorMod(c.gx, c.q)
      && FloorMod(p.gy * rInv, c.q) == FloorMod(c.gy, c.q)
      && forall x :: FloorMod(x * p.qRR * rInv, c.q) == ToMontgomery(x, c.q)
  {
    var q := c.q;
    MontgomeryRoundTrip(1, q, rInv);
    MontgomeryRoundTrip(-3, q, rInv);
    MontgomeryRoundTrip(c.b, q, rInv);
    MontgomeryRoundTrip(c.gx, q, rInv);
    MontgomeryRoundTrip(c.gy, q, rInv);
    forall x
      ensures FloorMod(x * ToMontgomery(MontR(q), q) * rInv, q) == ToMontgomery(x, q)
    {
      RSquaredConverts(x, q, rInv);
    }
  }

  /** `oneRR_mod_n`, the square of R mod n reduced mod n, is R^2 mod n under the
      order's own radix. */
  lemma DerivedScalarRSquared(c: CurveSpec)
    requires Supported(c) && c.q != 0 && c.n != 0
    ensures FormatPrimeCurve(c).value.oneRRModN == FloorMod(MontR(c.n) * MontR(c.n), c.n)
  {
    OneSquared(c.n);
  }

  /** The square of the Montgomery form of 1 is R^2 modulo `p`. */
  lemma OneSquared(p: int)
    requires p != 0
    ensures FloorMod(ToMontgomery(1, p) * ToMontgomery(1, p), p) == FloorMod(MontR(p) * MontR(p), p)
  {
    var one, R := ToMontgomery(1, p), MontR(p);
    SquareCore(Abs(p), one, R);
    FloorModCongruent(one * one, R * R, p);
  }

  lemma SquareCore(m: nat, one: int, R: int)
    requires Divides(m, one - 1 * R)
    ensures Divides(m, one * one - R * R)
  {
    CongruentMul(m, one, R, one, R);
  }
}
