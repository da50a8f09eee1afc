/** Python's arbitrary-precision integer operations that the curve generator
    uses (`**` on 2, `int.bit_length`, floored `%`, `"%d"`), and the number
    theory its modular inverse rests on (divisibility, the greatest common
    divisor). Dafny's `int` is unbounded like Python's, so no width is modelled. */
module PyInt {

  function Abs(x: int): nat
  {
    if x < 0 then -x else x
  }

  /** `2**k` */
  function Pow2(k: nat): (r: nat)
    ensures r >= 1
  {
    if k == 0 then 1 else 2 * Pow2(k - 1)
  }

  lemma {:induction false} Pow2Add(j: nat, k: nat)
    ensures Pow2(j + k) == Pow2(j) * Pow2(k)
    decreases k
  {
    if k > 0 {
      Pow2Add(j, k - 1);
      calc {
        Pow2(j + k);
        2 * Pow2(j + k - 1);
        2 * (Pow2(j) * Pow2(k - 1));
        Pow2(j) * (2 * Pow2(k - 1));
        Pow2(j) * Pow2(k);
      }
    }
  }

  /** Pow2Add on known values, for computing powers of two as literals. */
  lemma Pow2Sum(j: nat, k: nat, u: nat, v: nat)
    requires Pow2(j) == u && Pow2(k) == v
    ensures Pow2(j + k) == u * v
  {
    Pow2Add(j, k);
  }

  lemma {:induction false} Pow2Monotonic(j: nat, k: nat)
    requires j <= k
    ensures Pow2(j) <= Pow2(k)
    decreases k
  {
    if j < k {
      Pow2Monotonic(j, k - 1);
    }
  }

  /** `x.bit_length()`: the number of binary digits of `|x|`, that is the least
      `k` with `|x| < 2^k`. */
  function BitLength(x: int): (r: nat)
    ensures Abs(x) < Pow2(r)
    ensures r > 0 ==> Pow2(r - 1) <= Abs(x)
    decreases Abs(x)
  {
    if x == 0 then 0 else 1 + BitLength(Abs(x) / 2)
  }

  /** No smaller width than BitLength(x) holds `|x|`. */
  lemma BitLengthIsLeast(x: int, k: nat)
    requires Abs(x) < Pow2(k)
    ensures BitLength(x) <= k
  {
    if BitLength(x) > k {
      Pow2Monotonic(k, BitLength(x) - 1);
    }
  }

  /** The two bounds determine BitLength(x). */
  lemma BitLengthUnique(x: int, k: nat)
    requires Abs(x) < Pow2(k)
    requires k > 0 ==> Pow2(k - 1) <= Abs(x)
    ensures BitLength(x) == k
  {
    BitLengthIsLeast(x, k);
    if BitLength(x) < k {
      Pow2Monotonic(BitLength(x), k - 1);
    }
  }

  /** `d` divides `n` (0 divides only 0). */
  predicate Divides(d: nat, n: int)
  {
    if d == 0 then n == 0 else n % d == 0
  }

  /** The remainder and quotient of Euclidean division are determined by the
      defining equation and the remainder's range. */
  lemma DivModUnique(n: int, d: int, q: int, r: int)
    requires d > 0 && n == d * q + r && 0 <= r < d
    ensures n / d == q && n % d == r
  {
    var q', r' := n / d, n % d;
    assert d * (q - q') == r' - r;
    MulAwayFromZero(d, q - q');
  }

  /** A nonzero multiple of `d` is at least `d` away from 0. */
  lemma MulAwayFromZero(d: int, k: int)
    requires d > 0
    ensures k >= 1 ==> d * k >= d
    ensures k <= -1 ==> d * k <= -d
  {
    if k >= 1 {
      assert d * k == d + d * (k - 1);
    } else if k <= -1 {
      assert d * k == -d + d * (k + 1);
    }
  }

  lemma DividesMultiple(d: nat, k: int)
    ensures Divides(d, d * k)
  {
    if d > 0 {
      DivModUnique(d * k, d, k, 0);
    }
  }

  lemma DividesWitness(d: nat, n: int)
    requires Divides(d, n)
    ensures n == d * (if d == 0 then 0 else n / d)
  {
  }

  /** A common divisor of `u` and `v` divides every integer combination of them. */
  lemma DividesLinear(d: nat, u: int, v: int, s: int, t: int)
    requires Divides(d, u) && Divides(d, v)
    ensures Divides(d, s * u + t * v)
  {
    if d > 0 {
      var ku, kv := u / d, v / d;
      DividesWitness(d, u);
      DividesWitness(d, v);
      calc {
        s * u + t * v;
        s * (d * ku) + t * (d * kv);
        d * (s * ku + t * kv);
      }
      DividesMultiple(d, s * ku + t * kv);
    }
  }

  /** A multiple of `d` strictly between `-d` and `d` is 0. */
  lemma DividesSmall(d: nat, z: int)
    requires Divides(d, z) && z < d && -z < d
    ensures z == 0
  {
    if d > 0 {
      DividesWitness(d, z);
      var k := z / d;
    }
  }

  /** Python's `x % m`: the result takes the sign of `m` (floored division),
      where Dafny's `%` is Euclidean. `m == 0` raises ZeroDivisionError. */
  function FloorMod(x: int, m: int): (r: int)
    requires m != 0
    ensures m > 0 ==> 0 <= r < m
    ensures m < 0 ==> m < r <= 0
    ensures Divides(Abs(m), x - r)
  {
    if m > 0 then
      DivModUnique(x - x % m, m, x / m, 0);
      x % m
    else
      DivModUnique(-x - (-x) % (-m), -m, (-x) / (-m), 0);
      DividesLinear(-m, -x - (-x) % (-m), 0, -1, 0);
      -((-x) % (-m))
  }

  /** FloorMod depends only on the residue class of its argument. */
  lemma FloorModCongruent(x: int, y: int, m: int)
    requires m != 0 && Divides(Abs(m), x - y)
    ensures FloorMod(x, m) == FloorMod(y, m)
  {
    var rx, ry := FloorMod(x, m), FloorMod(y, m);
    DividesLinear(Abs(m), x - y, x - rx, 1, -1);
    DividesLinear(Abs(m), (x - y) - (x - rx), y - ry, 1, 1);
    assert (x - y) - (x - rx) + (y - ry) == rx - ry;
    DividesSmall(Abs(m), rx - ry);
  }

  /** Congruence modulo `d` respects multiplication. */
  lemma CongruentMul(d: nat, a: int, b: int, c: int, e: int)
    requires Divides(d, a - b) && Divides(d, c - e)
    ensures Divides(d, a * c - b * e)
  {
    DividesLinear(d, c - e, a - b, a, e);
    assert a * (c - e) + e * (a - b) == a * c - b * e;
  }

  /** Greatest common divisor of two naturals by Euclid's recursion. */
  function Gcd(a: nat, b: nat): nat
    decreases b
  {
    if b == 0 then a else Gcd(b, a % b)
  }

  /** `g` is a common divisor of `a` and `b` that every common divisor divides. */
  ghost predicate IsGcd(g: nat, a: nat, b: nat)
  {
    Divides(g, a) && Divides(g, b) &&
    forall d: nat :: Divides(d, a) && Divides(d, b) ==> Divides(d, g)
  }

  /** Euclid's recursion computes the greatest common divisor. */
  lemma {:induction false} GcdIsGreatestCommonDivisor(a: nat, b: nat)
    ensures IsGcd(Gcd(a, b), a, b)
    decreases b
  {
    if b == 0 {
      DividesMultiple(a, 0);
      assert Divides(a, 0);
    } else {
      GcdIsGreatestCommonDivisor(b, a % b);
      EuclidStep(a, b, Gcd(b, a % b));
    }
  }

  /** One step of Euclid's algorithm keeps the greatest common divisor. */
  lemma EuclidStep(a: nat, b: nat, g: nat)
    requires b > 0 && IsGcd(g, b, a % b)
    ensures IsGcd(g, a, b)
  {
    var q, r := a / b, a % b;
    assert a == q * b + 1 * r;
    DividesLinear(g, b, r, q, 1);
    forall d: nat | Divides(d, a) && Divides(d, b)
      ensures Divides(d, g)
    {
      DividesLinear(d, a, b, 1, -q);
      assert 1 * a + (-q) * b == r;
    }
  }

  /** Two naturals that divide each other are equal. */
  lemma DividesAntisymmetric(x: nat, y: nat)
    requires Divides(x, y) && Divides(y, x)
    ensures x == y
  {
    if x > 0 && y > 0 {
      DividesWitness(x, y);
      DividesWitness(y, x);
      var k := y / x;
      if k >= 2 {
        assert x * k >= x * 2;
        DivModUnique(x, y, 0, x);
      }
    }
  }

  /** The greatest common divisor is unique, so Gcd is the only function with
      the IsGcd property. */
  lemma GcdUnique(g: nat, a: nat, b: nat)
    requires IsGcd(g, a, b)
    ensures g == Gcd(a, b)
  {
    GcdIsGreatestCommonDivisor(a, b);
    DividesAntisymmetric(g, Gcd(a, b));
  }

  /** Python's `"%d" % n` for a natural `n`. */
  function Decimal(n: nat): (s: string)
    ensures |s| >= 1 && IsDecimal(s)
    ensures s[0] == '0' ==> n == 0 && s == "0"
    decreases n
  {
    if n < 10 then [Digit(n)] else Decimal(n / 10) + [Digit(n % 10)]
  }

  function Digit(d: nat): char
    requires d < 10
  {
    "0123456789"[d]
  }

  predicate IsDecimal(s: string)
  {
    forall i :: 0 <= i < |s| ==> '0' <= s[i] <= '9'
  }

  /** Reads a string of decimal digits back as a natural (the inverse of Decimal). */
  function DecimalValue(s: string): nat
    requires IsDecimal(s)
  {
    if s == [] then 0 else 10 * DecimalValue(s[..|s| - 1]) + (s[|s| - 1] - '0') as nat
  }

  lemma {:induction false} DecimalRoundTrip(n: nat)
    ensures DecimalValue(Decimal(n)) == n
    decreases n
  {
    if n >= 10 {
      DecimalRoundTrip(n / 10);
      var s, t := Decimal(n), Decimal(n / 10);
      assert s == t + [Digit(n % 10)];
      assert s[..|s| - 1] == t;
      assert DecimalValue(s) == 10 * DecimalValue(t) + n % 10;
    }
  }
}
